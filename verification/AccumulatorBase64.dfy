/** httplib's base64_encode: a 32-bit accumulator that is never cleared, and why that does not matter. */
module AccumulatorBase64 {
  import opened CodecVariants
  import opened CodecBits
  import opened StreamCodec

  const V := Base64Rfc4648

  /** The six bits of the accumulator above position k; k never exceeds 6, so bit 11 is the highest ever read. */
  function SixBits(val: bv32, k: nat): (x: bv8)
    requires k <= 6
    ensures BelowRadix(Base64, x)
  {
    ((val >> k) & 0x3F) as bv8
  }

  function Lookup(x: bv8): char
    requires BelowRadix(Base64, x)
  {
    SymbolOf(V, x)
  }

  /** The low bytes of the accumulator are the bytes of the started block; the rest is whatever was shifted up. */
  predicate Holds(val: bv32, b: seq<bv8>) {
    match |b|
    case 0 => true
    case 1 => val & 0xFF == b[0] as bv32
    case 2 => val & 0xFFFF == (b[0] as bv32 << 8) | b[1] as bv32
    case _ => val & 0xFFFFFF == (b[0] as bv32 << 16) | (b[1] as bv32 << 8) | b[2] as bv32
  }

  lemma ShiftIn(val: bv32, b: seq<bv8>, c: bv8)
    requires |b| < 3 && Holds(val, b)
    ensures Holds((val << 8) + c as bv32, b + [c])
  {
    ShiftBits(val, c);
    assert (b + [c])[..|b|] == b && (b + [c])[|b|] == c;
  }

  lemma ShiftBits(val: bv32, c: bv8)
    ensures ((val << 8) + c as bv32) & 0xFF == c as bv32
    ensures ((val << 8) + c as bv32) & 0xFFFF == ((val & 0xFF) << 8) | c as bv32
    ensures ((val << 8) + c as bv32) & 0xFFFFFF == ((val & 0xFFFF) << 8) | c as bv32
  {
  }

  lemma FirstDigit(val: bv32, b: seq<bv8>)
    requires |b| == 1 && Holds(val, b)
    ensures SixBits(val, 2) == Index(Base64, 0, b)
  {
  }

  lemma SecondDigit(val: bv32, b: seq<bv8>)
    requires |b| == 2 && Holds(val, b)
    ensures SixBits(val, 4) == Index(Base64, 1, b)
  {
  }

  lemma LastDigits(val: bv32, b: seq<bv8>)
    requires |b| == 3 && Holds(val, b)
    ensures SixBits(val, 6) == Index(Base64, 2, b) && SixBits(val, 0) == Index(Base64, 3, b)
  {
  }

  lemma TailDigit(val: bv32, b: seq<bv8>)
    requires 1 <= |b| <= 2 && Holds(val, b)
    ensures SixBits(val << 8, 2 + 2 * |b|) == IndexLast(Base64, b)
  {
  }

  lemma HoldsNothing(val: bv32)
    ensures Holds(val, [])
  {
  }

  function Push(b: seq<bv8>, i: nat): char
    requires i < 4 && BytesRead(Base64, i) <= |b| <= 3
  {
    IndexBelowRadix(b, i);
    Lookup(Index(Base64, i, b))
  }

  lemma IndexBelowRadix(b: seq<bv8>, i: nat)
    requires i < 4 && BytesRead(Base64, i) <= |b|
    ensures BelowRadix(Base64, Index(Base64, i, b))
  {
  }

  /** The first k symbols of a block of which b has been read. */
  function Pushed(b: seq<bv8>, k: nat): (s: string)
    requires |b| <= 3 && k <= 4 && (k > 0 ==> BytesRead(Base64, k - 1) <= |b|)
    ensures |s| == k
  {
    if k == 0 then "" else Pushed(b, k - 1) + [Push(b, k - 1)]
  }

  /** With k symbols pushed for n bytes, valb stands at 8n - 6 - 6k; the six bits there are symbol k. */
  lemma PushNext(val: bv32, b: seq<bv8>, k: nat)
    requires |b| - 1 <= k < 4 && 0 <= 8 * |b| - 6 - 6 * k && |b| <= 3 && Holds(val, b)
    requires k > 0 ==> BytesRead(Base64, k - 1) <= |b|
    ensures BytesRead(Base64, k) <= |b| && 8 * |b| - 6 - 6 * k <= 6
    ensures Pushed(b, k + 1) == Pushed(b, k) + [Lookup(SixBits(val, 8 * |b| - 6 - 6 * k))]
  {
    hide Index, SixBits, Holds, Lookup;
    assert (|b| == 1 && k == 0) || (|b| == 2 && k == 1) || (|b| == 3 && k == 2) || (|b| == 3 && k == 3);
    if |b| == 1 { FirstDigit(val, b); } else if |b| == 2 { SecondDigit(val, b); } else { LastDigits(val, b); }
  }

  lemma {:induction false} PushedIsStable(b: seq<bv8>, c: bv8, k: nat)
    requires |b| < 3 && k <= |b|
    ensures Pushed(b + [c], k) == Pushed(b, k)
  {
    if k > 0 { PushedIsStable(b, c, k - 1); }
  }

  lemma BlockSymbolAt(b: seq<bv8>, i: nat)
    requires |b| == 3 && i < 4
    ensures BlockSymbols(V, b)[i] == Push(b, i)
  {
    hide Index, SymbolOf, BelowRadix;
    BlockDigitsBelowRadix(Base64, b);
  }

  lemma TailSymbolAt(b: seq<bv8>, i: nat)
    requires 1 <= |b| <= 2 && i <= |b|
    ensures BelowRadix(Base64, IndexLast(Base64, b))
    ensures TailSymbols(V, b)[i] == if i < |b| then Push(b, i) else Lookup(IndexLast(Base64, b))
  {
    hide Index, SymbolOf, BelowRadix, IndexLast;
    TailDigitsBelowRadix(Base64, b);
    assert TailDigits(Base64, b)[|b|] == IndexLast(Base64, b);
  }

  lemma {:induction false} PushedIsPrefix(b: seq<bv8>, k: nat)
    requires 1 <= |b| <= 3 && k <= if |b| == 3 then 4 else |b|
    ensures Pushed(b, k) == if |b| == 3 then BlockSymbols(V, b)[..k] else TailSymbols(V, b)[..k]
  {
    hide Push, BlockSymbols, TailSymbols, Lookup, IndexLast, BelowRadix;
    if k > 0 {
      PushedIsPrefix(b, k - 1);
      if |b| == 3 { BlockSymbolAt(b, k - 1); } else { TailSymbolAt(b, k - 1); }
    }
  }

  lemma {:induction false} PushedBlock(b: seq<bv8>)
    requires |b| == 3
    ensures Pushed(b, 4) == BlockSymbols(V, b)
  {
    hide Pushed, BlockSymbols;
    PushedIsPrefix(b, 4);
  }

  lemma {:induction false} PushedTail(b: seq<bv8>)
    requires 1 <= |b| <= 2
    ensures BelowRadix(Base64, IndexLast(Base64, b))
    ensures Encode(V, b) == Pushed(b, |b|) + [Lookup(IndexLast(Base64, b))] + Padding(3 - |b|)
  {
    hide Pushed, TailSymbols, Lookup, IndexLast, BelowRadix;
    PushedIsPrefix(b, |b|);
    TailSymbolAt(b, |b|);
    assert TailSymbols(V, b) == Pushed(b, |b|) + [Lookup(IndexLast(Base64, b))];
  }

  lemma {:induction false} NothingPushed(b: seq<bv8>)
    ensures b == [] ==> Pushed(b, 0) == "" && Encode(V, b) == ""
  {
  }

  /** The inner loop: pushes a symbol for every six bits available; b is the started block, k - 1 of it pushed. */
  method Drain(val: bv32, top: int, pushed: string, ghost b: seq<bv8>, ghost done: string)
    returns (valb: int, out: string)
    requires 1 <= |b| <= 3 && Holds(val, b) && top == 2 * |b|
    requires |b| > 1 ==> BytesRead(Base64, |b| - 2) <= |b|
    requires pushed == done + Pushed(b, |b| - 1)
    ensures valb == if |b| == 3 then -6 else 2 * |b| - 6
    ensures out == done + Pushed(b, if |b| == 3 then 4 else |b|)
  {
    hide Index, Push, Pushed, SixBits, Lookup, BelowRadix, Holds;
    valb, out := top, pushed;
    ghost var k := |b| - 1;
    while valb >= 0
      invariant |b| - 1 <= k <= 4 && valb == 8 * |b| - 6 - 6 * k >= -6
      invariant k > 0 ==> BytesRead(Base64, k - 1) <= |b|
      invariant out == done + Pushed(b, k)
    {
      PushNext(val, b, k);
      out := out + [Lookup(SixBits(val, valb))];
      valb, k := valb - 6, k + 1;
    }
  }

  method CloseWithPadding(text: string, ghost missing: nat) returns (out: string)
    requires missing < 4 && (|text| + missing) % 4 == 0
    ensures out == text + Padding(missing)
  {
    out := text;
    while |out| % 4 != 0
      invariant |text| <= |out| <= |text| + missing && out == text + Padding(|out| - |text|)
      decreases |text| + missing - |out|
    {
      out := out + "=";
    }
  }

  /** The loop over val and valb yields what the block encoder yields, for every input. */
  method Base64Encode(input: seq<bv8>) returns (out: string)
    ensures out == Encode(Base64Rfc4648, input)
  {
    hide Index, Push, Pushed, SixBits, Lookup, BelowRadix, Encode, BlockSymbols, SymbolOf, IndexLast, Holds;
    var val: bv32, valb := 0, -6;
    out := "";
    ghost var start, done := 0, "";
    assert input[0..] == input && input[0..0] == [];
    HoldsNothing(val);
    NothingPushed([]);
    for i := 0 to |input|
      invariant start <= i < start + 3 && valb == 2 * (i - start) - 6
      invariant Holds(val, input[start..i])
      invariant |done| % 4 == 0 && Encode(V, input) == done + Encode(V, input[start..])
      invariant out == done + Pushed(input[start..i], i - start)
    {
      ghost var b := input[start..i + 1];
      assert b == input[start..i] + [input[i]];
      ShiftIn(val, input[start..i], input[i]);
      PushedIsStable(input[start..i], input[i], i - start);
      val := (val << 8) + input[i] as bv32;
      valb, out := Drain(val, valb + 8, out, b, done);
      if |b| == 3 {
        BlockDone(input, start, done);
        done := out;
        start := i + 1;
        HoldsNothing(val);
        NothingPushed([]);
        assert input[start..i + 1] == [];
      }
    }
    ghost var b := input[start..];
    assert input[start..|input|] == b;
    NothingPushed(b);
    if valb > -6 {
      TailDigit(val, b);
      PushedTail(b);
      out := out + [Lookup(SixBits(val << 8, valb + 8))];
    }
    out := CloseWithPadding(out, if b == [] then 0 else 3 - |b|);
  }

  lemma BlockDone(input: seq<bv8>, start: nat, done: string)
    requires start + 3 <= |input| && |done| % 4 == 0
    ensures done + Encode(V, input[start..])
        == (done + Pushed(input[start..start + 3], 4)) + Encode(V, input[start + 3..])
    ensures |done + Pushed(input[start..start + 3], 4)| % 4 == 0
  {
    hide Pushed, Encode, BlockSymbols;
    PushedBlock(input[start..start + 3]);
    EncodeUnfolds(V, input, start);
    Associates(done, BlockSymbols(V, input[start..start + 3]), Encode(V, input[start + 3..]));
  }
}
