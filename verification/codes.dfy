/** Random codes over the 36-symbol alphabet `A-Z0-9`: the 6-character class invite code
    (`generateInviteCode` in both class managers) and the 8-character student login code
    (`generateCode` in the enrollment roster). Each character is
    `chars.charAt(Math.floor(Math.random() * chars.length))`; the random numbers are supplied by
    the caller as reals in [0, 1), which is what `Math.random` promises. */
module Codes {
  import opened Options

  const Chars: string := "ABCDEFGHIJKLMNOPQRSTUVWXYZ0123456789"
  const InviteCodeLength: nat := 6
  const LoginCodeLength: nat := 8

  /** A value `Math.random` may return. */
  predicate IsRandom(r: real) {
    0.0 <= r < 1.0
  }

  ghost predicate AllRandom(draws: seq<real>) {
    forall k :: 0 <= k < |draws| ==> IsRandom(draws[k])
  }

  /** `Math.floor(r * chars.length)`: the draw falls in the bucket [i/36, (i+1)/36). The product
      is exact here; in doubles it can round up to the next bucket for a draw just below i/36. */
  function PickIndex(r: real): (i: nat)
    requires IsRandom(r)
    ensures i < |Chars|
    ensures i as real <= r * 36.0 < i as real + 1.0
  {
    (r * (|Chars| as real)).Floor
  }

  /** An upper-case ASCII letter or a decimal digit. */
  predicate IsCodeChar(c: char) {
    'A' <= c <= 'Z' || '0' <= c <= '9'
  }

  /** The position of `c` in the alphabet, computed from its character class. */
  function IndexOfChar(c: char): (i: Option<nat>)
    ensures i.Some? <==> IsCodeChar(c)
    ensures i.Some? ==> i.value < |Chars|
  {
    if 'A' <= c <= 'Z' then Some(c as int - 'A' as int)
    else if '0' <= c <= '9' then Some(c as int - '0' as int + 26)
    else None
  }

  /** The alphabet is the 26 capitals followed by the 10 digits. */
  lemma AlphabetLayout(i: nat)
    requires i < |Chars|
    ensures i < 26 ==> Chars[i] as int == 'A' as int + i
    ensures 26 <= i ==> Chars[i] as int == '0' as int + i - 26
  {
  }

  /** Every alphabet character is a code character and sits where `IndexOfChar` says. */
  lemma CharIndexRoundTrip(i: nat)
    requires i < |Chars|
    ensures IsCodeChar(Chars[i])
    ensures IndexOfChar(Chars[i]) == Some(i)
  {
    AlphabetLayout(i);
  }

  /** Every code character occurs in the alphabet at the index `IndexOfChar` gives. */
  lemma IndexOfCharRoundTrip(c: char)
    requires IsCodeChar(c)
    ensures Chars[IndexOfChar(c).value] == c
  {
    AlphabetLayout(IndexOfChar(c).value);
  }

  /** The first `n` characters a generator draws from `draws`. */
  function GenerateCode(n: nat, draws: seq<real>): (code: string)
    requires n <= |draws| && AllRandom(draws)
    ensures |code| == n
    ensures forall k :: 0 <= k < n ==> IsCodeChar(code[k])
  {
    if n == 0 then []
    else
      var i := PickIndex(draws[n - 1]);
      CharIndexRoundTrip(i);
      GenerateCode(n - 1, draws) + [Chars[i]]
  }

  /** The indices the draws select. */
  function Picks(n: nat, draws: seq<real>): (idx: seq<nat>)
    requires n <= |draws| && AllRandom(draws)
    ensures |idx| == n && forall k :: 0 <= k < n ==> idx[k] == PickIndex(draws[k]) < |Chars|
  {
    if n == 0 then [] else Picks(n - 1, draws) + [PickIndex(draws[n - 1])]
  }

  /** Reads a code back into alphabet indices; `None` when some character is not in the
      alphabet. */
  function DecodeCode(code: string): (idx: Option<seq<nat>>)
    ensures idx.Some? <==> forall k :: 0 <= k < |code| ==> IsCodeChar(code[k])
    ensures idx.Some? ==> |idx.value| == |code|
  {
    if |code| == 0 then Some([])
    else
      match (DecodeCode(code[..|code| - 1]), IndexOfChar(code[|code| - 1]))
      case (Some(init), Some(i)) => Some(init + [i])
      case _ => None
  }

  /** Character `k` of a generated code is the alphabet entry draw `k` selects. */
  lemma {:induction false} GenerateCodeAt(n: nat, draws: seq<real>, k: nat)
    requires n <= |draws| && AllRandom(draws) && k < n
    ensures GenerateCode(n, draws)[k] == Chars[PickIndex(draws[k])]
  {
    if k < n - 1 {
      GenerateCodeAt(n - 1, draws, k);
    }
  }

  /** Decoding a generated code recovers exactly the indices the draws selected. */
  lemma {:induction false} DecodeGenerated(n: nat, draws: seq<real>)
    requires n <= |draws| && AllRandom(draws)
    ensures DecodeCode(GenerateCode(n, draws)) == Some(Picks(n, draws))
  {
    if n > 0 {
      var code := GenerateCode(n, draws);
      DecodeGenerated(n - 1, draws);
      assert code[..n - 1] == GenerateCode(n - 1, draws);
      CharIndexRoundTrip(PickIndex(draws[n - 1]));
    }
  }

  /** A code is determined by its decoding: two codes over the alphabet with the same indices
      are equal, so distinct draws that select the same indices give the same code. */
  lemma {:induction false} DecodeInjective(a: string, b: string)
    requires DecodeCode(a).Some? && DecodeCode(a) == DecodeCode(b)
    ensures a == b
  {
    if |a| > 0 {
      var ia := IndexOfChar(a[|a| - 1]);
      var ib := IndexOfChar(b[|b| - 1]);
      assert DecodeCode(a[..|a| - 1]).Some? && DecodeCode(b[..|b| - 1]).Some?;
      assert DecodeCode(a).value == DecodeCode(a[..|a| - 1]).value + [ia.value];
      assert DecodeCode(b).value == DecodeCode(b[..|b| - 1]).value + [ib.value];
      assert DecodeCode(a[..|a| - 1]).value == DecodeCode(a).value[..|a| - 1];
      assert DecodeCode(b[..|b| - 1]).value == DecodeCode(b).value[..|b| - 1];
      DecodeInjective(a[..|a| - 1], b[..|b| - 1]);
      IndexOfCharRoundTrip(a[|a| - 1]);
      IndexOfCharRoundTrip(b[|b| - 1]);
      assert a == a[..|a| - 1] + [a[|a| - 1]];
      assert b == b[..|b| - 1] + [b[|b| - 1]];
    }
  }

  /** The generator's loop: one character appended per draw. */
  method BuildCode(n: nat, draws: seq<real>) returns (code: string)
    requires n <= |draws| && AllRandom(draws)
    ensures |code| == n
    ensures forall k :: 0 <= k < n ==> code[k] == Chars[PickIndex(draws[k])]
    ensures DecodeCode(code) == Some(Picks(n, draws))
  {
    code := "";
    var i := 0;
    while i < n
      invariant i <= n
      invariant code == GenerateCode(i, draws)
    {
      code := code + [Chars[PickIndex(draws[i])]];
      i := i + 1;
    }
    forall k | 0 <= k < n ensures code[k] == Chars[PickIndex(draws[k])] {
      GenerateCodeAt(n, draws, k);
    }
    DecodeGenerated(n, draws);
  }

  /** A class invite code: six alphabet characters chosen by the first six draws. */
  function InviteCode(draws: seq<real>): (code: string)
    requires InviteCodeLength <= |draws| && AllRandom(draws)
    ensures |code| == 6
    ensures forall k :: 0 <= k < |code| ==> IsCodeChar(code[k])
    ensures DecodeCode(code) == Some(Picks(6, draws))
  {
    DecodeGenerated(InviteCodeLength, draws);
    GenerateCode(InviteCodeLength, draws)
  }

  /** A student login code: eight alphabet characters chosen by the first eight draws. */
  function LoginCode(draws: seq<real>): (code: string)
    requires LoginCodeLength <= |draws| && AllRandom(draws)
    ensures |code| == 8
    ensures forall k :: 0 <= k < |code| ==> IsCodeChar(code[k])
    ensures DecodeCode(code) == Some(Picks(8, draws))
  {
    DecodeGenerated(LoginCodeLength, draws);
    GenerateCode(LoginCodeLength, draws)
  }
}
