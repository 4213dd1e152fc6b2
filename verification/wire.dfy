/** The bytes on the wire as values: words, responses as trees, and the decoder of the client. */
module Wire {
  import opened Pairs
  import opened Buffers

  /** k_max_msg and k_max_args */
  const MAX_MSG: nat := 32 * 0x10_0000
  const MAX_ARGS: nat := 200 * 1000

  type u32 = n: nat | n < UINT32_RANGE

  // ---- little-endian words ----

  function U32(n: u32): Bytes {
    var n1 := n / 0x100;
    var n2 := n1 / 0x100;
    var n3 := n2 / 0x100;
    [(n % 0x100) as byte, (n1 % 0x100) as byte, (n2 % 0x100) as byte, n3 as byte]
  }

  function WordAt(data: Bytes, at: nat): u32
    requires at + 4 <= |data|
  {
    data[at] as nat + data[at + 1] as nat * 0x100 + data[at + 2] as nat * 0x1_0000 + data[at + 3] as nat * 0x100_0000
  }

  lemma WordOfBytes(n: u32)
    ensures |U32(n)| == 4 && WordAt(U32(n), 0) == n
  {
  }

  lemma BytesOfWord(data: Bytes, at: nat)
    requires at + 4 <= |data|
    ensures U32(WordAt(data, at)) == data[at..at + 4]
  {
    var n := WordAt(data, at);
    assert n / 0x100 == data[at + 1] as nat + data[at + 2] as nat * 0x100 + data[at + 3] as nat * 0x1_0000;
    assert n / 0x100 / 0x100 == data[at + 2] as nat + data[at + 3] as nat * 0x100;
    assert n / 0x100 / 0x100 / 0x100 == data[at + 3] as nat;
  }

  lemma WordInside(prefix: Bytes, n: u32, rest: Bytes)
    ensures |U32(n)| == 4 && WordAt(prefix + U32(n) + rest, |prefix|) == n
  {
    var data := prefix + U32(n) + rest;
    assert forall i | 0 <= i < 4 :: data[|prefix| + i] == U32(n)[i];
    WordOfBytes(n);
  }

  // ---- integers ----

  type i64 = v: int | -0x8000_0000_0000_0000 <= v < 0x8000_0000_0000_0000

  /** The eight bytes of an int64_t, little-endian in two's complement. */
  function I64(v: i64): Bytes {
    var u: nat := if v < 0 then v + UINT64_RANGE else v;
    U32(u % UINT32_RANGE) + U32(u / UINT32_RANGE)
  }

  /** The low 64 bits of a number, read as int64_t. */
  function ToI64(n: nat): i64 {
    var u := n % UINT64_RANGE;
    if u < UINT64_RANGE / 2 then u else u - UINT64_RANGE
  }

  function I64At(data: Bytes, at: nat): i64
    requires at + 8 <= |data|
  {
    ToI64(WordAt(data, at) + WordAt(data, at + 4) * UINT32_RANGE)
  }

  /** An int64_t and its eight bytes determine each other. */
  lemma IntInside(prefix: Bytes, v: i64, rest: Bytes)
    ensures |I64(v)| == 8 && I64At(prefix + I64(v) + rest, |prefix|) == v
  {
    hide U32, WordAt;
    var u: nat := if v < 0 then v + UINT64_RANGE else v;
    var low, high := u % UINT32_RANGE, u / UINT32_RANGE;
    WordInside(prefix, low, U32(high) + rest);
    WordInside(prefix + U32(low), high, rest);
    assert prefix + I64(v) + rest == prefix + U32(low) + (U32(high) + rest) == (prefix + U32(low)) + U32(high) + rest;
    assert low + high * UINT32_RANGE == u;
  }

  lemma TwoWords(low: u32, high: u32)
    ensures (low + high * UINT32_RANGE) % UINT32_RANGE == low && (low + high * UINT32_RANGE) / UINT32_RANGE == high
    ensures low + high * UINT32_RANGE < UINT64_RANGE
  {
  }

  lemma IntOfWords(low: u32, high: u32)
    ensures I64(ToI64(low + high * UINT32_RANGE)) == U32(low) + U32(high)
  {
    hide U32;
    TwoWords(low, high);
    var n := low + high * UINT32_RANGE;
    assert n % UINT64_RANGE == n;
  }

  lemma BytesOfInt(data: Bytes, at: nat)
    requires at + 8 <= |data|
    ensures I64(I64At(data, at)) == data[at..at + 8]
  {
    hide U32, WordAt, I64, ToI64;
    BytesOfWord(data, at);
    BytesOfWord(data, at + 4);
    IntOfWords(WordAt(data, at), WordAt(data, at + 4));
    assert data[at..at + 8] == data[at..at + 4] + data[at + 4..at + 8];
  }

  // ---- responses ----

  /** What a response can say; a double is kept as the eight bytes it is sent as. */
  datatype Res =
    | Nil
    | Err(code: u32, msg: Bytes)
    | Str(text: Bytes)
    | Int(n: i64)
    | Dbl(bits: Bytes)
    | Arr(items: seq<Res>)

  const TAG_NIL: byte := 0
  const TAG_ERR: byte := 1
  const TAG_STR: byte := 2
  const TAG_INT: byte := 3
  const TAG_DBL: byte := 4
  const TAG_ARR: byte := 5

  /** (uint32_t) of a size */
  function Low32(n: nat): u32 {
    n % UINT32_RANGE
  }

  lemma Low32Fits(n: nat)
    requires n < UINT32_RANGE
    ensures Low32(n) == n
  {
  }

  /** The bytes the encoders write: lengths and counts are narrowed to 32 bits. */
  function Encode(r: Res): Bytes
    decreases r
  {
    match r
    case Nil => [TAG_NIL]
    case Err(code, msg) => [TAG_ERR] + U32(code) + U32(Low32(|msg|)) + msg
    case Str(text) => [TAG_STR] + U32(Low32(|text|)) + text
    case Int(n) => [TAG_INT] + I64(n)
    case Dbl(bits) => [TAG_DBL] + bits
    case Arr(items) => [TAG_ARR] + U32(Low32(|items|)) + EncodeAll(items)
  }

  function EncodeAll(items: seq<Res>): Bytes
    decreases items
  {
    if items == [] then [] else Encode(items[0]) + EncodeAll(items[1..])
  }

  /** Lengths and counts survive the narrowing, doubles have eight bytes. */
  predicate Fits(r: Res)
    decreases r
  {
    match r
    case Nil => true
    case Err(_, msg) => |msg| < UINT32_RANGE
    case Str(text) => |text| < UINT32_RANGE
    case Int(_) => true
    case Dbl(bits) => |bits| == 8
    case Arr(items) => |items| < UINT32_RANGE && forall i | 0 <= i < |items| :: Fits(items[i])
  }

  datatype Decoded = Bad | Good(r: Res, size: nat)
  datatype DecodedAll = BadAll | GoodAll(items: seq<Res>, size: nat)

  /** print_response(): the value at the front of the data and the number of its bytes. */
  function Decode(data: Bytes): (d: Decoded)
    ensures d.Good? ==> 0 < d.size <= |data|
    decreases |data|, 0
  {
    if |data| < 1 then Bad
    else if data[0] == TAG_NIL then Good(Nil, 1)
    else if data[0] == TAG_ERR then
      if |data| < 9 then Bad
      else
        var len := WordAt(data, 5);
        if |data| < 9 + len then Bad else Good(Err(WordAt(data, 1), data[9..9 + len]), 9 + len)
    else if data[0] == TAG_STR then
      if |data| < 5 then Bad
      else
        var len := WordAt(data, 1);
        if |data| < 5 + len then Bad else Good(Str(data[5..5 + len]), 5 + len)
    else if data[0] == TAG_INT then
      if |data| < 9 then Bad else Good(Int(I64At(data, 1)), 9)
    else if data[0] == TAG_DBL then
      if |data| < 9 then Bad else Good(Dbl(data[1..9]), 9)
    else if data[0] == TAG_ARR then
      if |data| < 5 then Bad
      else
        var d := DecodeAll(data[5..], WordAt(data, 1));
        if d.BadAll? then Bad else Good(Arr(d.items), 5 + d.size)
    else Bad
  }

  function DecodeAll(data: Bytes, count: nat): (d: DecodedAll)
    ensures d.GoodAll? ==> d.size <= |data| && |d.items| == count
    decreases |data|, count + 1
  {
    if count == 0 then GoodAll([], 0)
    else
      var first := Decode(data);
      if first.Bad? then BadAll
      else
        var rest := DecodeAll(data[first.size..], count - 1);
        if rest.BadAll? then BadAll else GoodAll([first.r] + rest.items, first.size + rest.size)
  }

  lemma ScalarDecodes(r: Res, rest: Bytes)
    requires Fits(r) && !r.Arr?
    ensures Decode(Encode(r) + rest) == Good(r, |Encode(r)|)
  {
    hide U32, WordAt, I64, I64At, Low32;
    var data := Encode(r) + rest;
    match r
    case Nil =>
    case Err(code, msg) =>
      Low32Fits(|msg|);
      Header(TAG_ERR, code, U32(|msg|) + msg + rest);
      ErrHeader(code, msg, rest);
      assert data == [TAG_ERR] + U32(code) + (U32(|msg|) + msg + rest);
    case Str(text) =>
      Low32Fits(|text|);
      Header(TAG_STR, |text|, text + rest);
      assert data == [TAG_STR] + U32(|text|) + (text + rest);
      assert data[5..5 + |text|] == data[5..][..|text|] == text;
    case Int(n) =>
      IntInside([TAG_INT], n, rest);
    case Dbl(bits) =>
  }

  lemma ItemsDecode(items: seq<Res>, rest: Bytes)
    requires |items| < UINT32_RANGE && DecodeAll(EncodeAll(items) + rest, |items|) == GoodAll(items, |EncodeAll(items)|)
    ensures Decode(Encode(Arr(items)) + rest) == Good(Arr(items), |Encode(Arr(items))|)
  {
    hide U32, WordAt, DecodeAll, EncodeAll, Low32;
    Low32Fits(|items|);
    var data, all := Encode(Arr(items)) + rest, EncodeAll(items);
    Header(TAG_ARR, |items|, all + rest);
    assert data == [TAG_ARR] + U32(|items|) + (all + rest);
  }

  /** Whatever follows, an encoded value decodes to itself and exactly its bytes are consumed. */
  lemma {:induction false} DecodeEncoded(r: Res, rest: Bytes)
    requires Fits(r)
    ensures Decode(Encode(r) + rest) == Good(r, |Encode(r)|)
    decreases r, 1
  {
    hide Encode, EncodeAll, Decode, DecodeAll;
    if r.Arr? {
      DecodeEncodedAll(r.items, rest);
      ItemsDecode(r.items, rest);
    } else {
      ScalarDecodes(r, rest);
    }
  }

  lemma Header(tag: byte, n: u32, rest: Bytes)
    ensures var data := [tag] + U32(n) + rest;
            |data| == 5 + |rest| && data[0] == tag && WordAt(data, 1) == n && data[5..] == rest
  {
    WordInside([tag], n, rest);
  }

  lemma ErrHeader(code: u32, msg: Bytes, rest: Bytes)
    requires |msg| < UINT32_RANGE
    ensures var data := [TAG_ERR] + U32(code) + (U32(|msg|) + msg + rest);
            |data| == 9 + |msg| + |rest| && WordAt(data, 5) == |msg| && data[9..9 + |msg|] == msg
  {
    WordOfBytes(code);
    WordInside([TAG_ERR] + U32(code), |msg|, msg + rest);
    assert [TAG_ERR] + U32(code) + (U32(|msg|) + msg + rest) == [TAG_ERR] + U32(code) + U32(|msg|) + (msg + rest);
  }

  lemma OneThenAll(data: Bytes, r: Res, size: nat, items: seq<Res>, more: nat)
    requires Decode(data) == Good(r, size) && DecodeAll(data[size..], |items|) == GoodAll(items, more)
    ensures DecodeAll(data, |items| + 1) == GoodAll([r] + items, size + more)
  {
    hide Decode;
  }

  lemma {:induction false} DecodeEncodedAll(items: seq<Res>, rest: Bytes)
    requires forall i | 0 <= i < |items| :: Fits(items[i])
    ensures DecodeAll(EncodeAll(items) + rest, |items|) == GoodAll(items, |EncodeAll(items)|)
    decreases items, 0
  {
    hide Decode, Encode, DecodeAll, Fits;
    if items == [] {
      NoneDecoded([] + rest);
    } else {
      var e, tail := Encode(items[0]), EncodeAll(items[1..]);
      var data := EncodeAll(items) + rest;
      DecodeEncoded(items[0], tail + rest);
      DecodeEncodedAll(items[1..], rest);
      assert data == e + (tail + rest) && data[|e|..] == tail + rest;
      OneThenAll(data, items[0], |e|, items[1..], |tail|);
      assert [items[0]] + items[1..] == items;
    }
  }

  lemma CutAt(data: Bytes, i: nat, j: nat, k: nat)
    requires 1 <= i <= j <= k <= |data|
    ensures data[..k] == [data[0]] + data[1..i] + data[i..j] + data[j..k]
    ensures i == j ==> data[..k] == [data[0]] + data[1..i] + data[i..k] && data[i..k] == data[i..][..k - i]
    ensures i == j == k ==> data[..k] == [data[0]] + data[1..k]
  {
  }

  lemma ScalarIsEncoded(data: Bytes)
    requires Decode(data).Good? && !Decode(data).r.Arr?
    ensures var d := Decode(data); Fits(d.r) && data[..d.size] == Encode(d.r)
  {
    hide U32, WordAt, I64, I64At, Low32;
    var d := Decode(data);
    match d.r
    case Nil =>
    case Err(code, msg) =>
      Low32Fits(|msg|);
      BytesOfWord(data, 1);
      BytesOfWord(data, 5);
      CutAt(data, 5, 9, d.size);
    case Str(text) =>
      Low32Fits(|text|);
      BytesOfWord(data, 1);
      CutAt(data, 5, 5, d.size);
    case Int(_) =>
      BytesOfInt(data, 1);
      CutAt(data, 9, 9, 9);
    case Dbl(bits) =>
      CutAt(data, 9, 9, 9);
  }

  lemma ItemsAreEncoded(data: Bytes)
    requires Decode(data).Good? && Decode(data).r.Arr?
    ensures |data| >= 5 && var all := DecodeAll(data[5..], WordAt(data, 1)); var d := Decode(data);
              && all == GoodAll(d.r.items, d.size - 5) && |all.items| < UINT32_RANGE
              && (data[5..][..all.size] == EncodeAll(all.items) ==> data[..d.size] == Encode(d.r))
  {
    hide U32, WordAt, DecodeAll, EncodeAll, Low32;
    var d := Decode(data);
    Low32Fits(|d.r.items|);
    BytesOfWord(data, 1);
    CutAt(data, 5, 5, d.size);
  }

  /** Conversely, whatever is decoded is exactly the encoding of the value. */
  lemma {:induction false} EncodeDecoded(data: Bytes)
    ensures var d := Decode(data); d.Good? ==> Fits(d.r) && data[..d.size] == Encode(d.r)
    decreases |data|, 0
  {
    hide Encode, EncodeAll, Decode, DecodeAll, WordAt;
    if Decode(data).Good? {
      if Decode(data).r.Arr? {
        ItemsAreEncoded(data);
        EncodeDecodedAll(data[5..], WordAt(data, 1));
      } else {
        ScalarIsEncoded(data);
      }
    }
  }

  lemma FirstOfAll(data: Bytes, count: nat)
    requires DecodeAll(data, count).GoodAll? && count > 0
    ensures var first, d := Decode(data), DecodeAll(data, count);
            && first.Good? && d.items != [] && d.items[0] == first.r
            && DecodeAll(data[first.size..], count - 1) == GoodAll(d.items[1..], d.size - first.size)
  {
    hide Decode;
    var first, d := Decode(data), DecodeAll(data, count);
    assert d.items[1..] == DecodeAll(data[first.size..], count - 1).items;
  }

  lemma {:induction false} EncodeDecodedAll(data: Bytes, count: nat)
    ensures var d := DecodeAll(data, count);
            d.GoodAll? ==> (forall i | 0 <= i < |d.items| :: Fits(d.items[i])) && data[..d.size] == EncodeAll(d.items)
    decreases |data|, count + 1
  {
    hide Decode, DecodeAll, Encode, Fits;
    var d := DecodeAll(data, count);
    if count == 0 {
      NoneDecoded(data);
    } else if d.GoodAll? {
      var first := Decode(data);
      FirstOfAll(data, count);
      EncodeDecoded(data);
      EncodeDecodedAll(data[first.size..], count - 1);
      assert data[..d.size] == data[..first.size] + data[first.size..][..d.size - first.size];
    }
  }

  lemma NoneDecoded(data: Bytes)
    ensures DecodeAll(data, 0) == GoodAll([], 0)
  {
  }

  lemma {:induction false} EncodeAllAppend(a: seq<Res>, b: seq<Res>)
    ensures EncodeAll(a + b) == EncodeAll(a) + EncodeAll(b)
  {
    hide Encode;
    if a == [] {
      assert a + b == b;
    } else {
      EncodeAllAppend(a[1..], b);
      assert (a + b)[1..] == a[1..] + b && (a + b)[0] == a[0];
    }
  }

  lemma EncodeOne(r: Res)
    ensures EncodeAll([r]) == Encode(r)
  {
    hide Encode;
    assert [r][1..] == [];
    assert EncodeAll([r]) == Encode(r) + [];
  }

  // ---- the decoder as the client runs it ----

  /** DecodeAll() of what remains, put behind the items decoded so far. */
  ghost function Resume(items: seq<Res>, size: nat, rest: DecodedAll): DecodedAll {
    if rest.BadAll? then BadAll else GoodAll(items + rest.items, size + rest.size)
  }

  lemma ResumeStep(data: Bytes, at: nat, items: seq<Res>, size: nat, count: nat)
    requires count > 0 && at <= |data|
    ensures var d := Decode(data[at..]);
            Resume(items, size, DecodeAll(data[at..], count)) ==
              if d.Bad? then BadAll else Resume(items + [d.r], size + d.size, DecodeAll(data[at + d.size..], count - 1))
  {
    hide Decode, U32, WordAt;
    var d := Decode(data[at..]);
    if d.Good? {
      assert data[at..][d.size..] == data[at + d.size..];
      var rest := DecodeAll(data[at + d.size..], count - 1);
      assert rest.GoodAll? ==> items + ([d.r] + rest.items) == items + [d.r] + rest.items;
    }
  }

  lemma ArrayDecodes(data: Bytes)
    requires |data| >= 5 && data[0] == TAG_ARR
    ensures var d := Resume([], 0, DecodeAll(data[5..], WordAt(data, 1)));
            Decode(data) == if d.BadAll? then Bad else Good(Arr(d.items), 5 + d.size)
  {
    hide WordAt, DecodeAll;
    var rest := DecodeAll(data[5..], WordAt(data, 1));
    assert rest.GoodAll? ==> [] + rest.items == rest.items;
  }

  lemma ResumeEnds(data: Bytes, items: seq<Res>, size: nat)
    ensures Resume(items, size, DecodeAll(data, 0)) == GoodAll(items, size)
  {
  }

  /**
   The length checks of print_response() add in 32 bits. They agree with the checks of Decode() unless the sum wraps
   around and what is left of it does not exceed the size.
   */
  lemma LengthCheckIsExact(size: nat, header: nat, len: u32)
    requires header <= 9
    ensures (size < Low32(header + len) <==> size < header + len)
       <==> header + len < UINT32_RANGE || size < header + len - UINT32_RANGE || size >= header + len
  {
  }

  /** print_response(), returning what it prints; arrays are read in a loop. */
  method PrintResponse(data: Bytes) returns (d: Decoded)
    ensures d == Decode(data)
    decreases |data|, 1
  {
    hide U32, WordAt, I64At, DecodeAll;
    d := Bad;
    if |data| < 1 {
      return;
    }
    var tag := data[0];
    if tag == TAG_NIL {
      d := Good(Nil, 1);
    } else if tag == TAG_ERR {
      if |data| >= 9 {
        var code, len: nat := WordAt(data, 1), WordAt(data, 5);
        if |data| >= 9 + len {
          d := Good(Err(code, data[9..9 + len]), 9 + len);
        }
      }
    } else if tag == TAG_STR {
      if |data| >= 5 {
        var len: nat := WordAt(data, 1);
        if |data| >= 5 + len {
          d := Good(Str(data[5..5 + len]), 5 + len);
        }
      }
    } else if tag == TAG_INT {
      if |data| >= 9 {
        d := Good(Int(I64At(data, 1)), 9);
      }
    } else if tag == TAG_DBL {
      if |data| >= 9 {
        d := Good(Dbl(data[1..9]), 9);
      }
    } else if tag == TAG_ARR {
      if |data| >= 5 {
        d := PrintArray(data);
      }
    }
  }

  /** The array branch of print_response(). */
  method PrintArray(data: Bytes) returns (d: Decoded)
    requires |data| >= 5 && data[0] == TAG_ARR
    ensures d == Decode(data)
    decreases |data|, 0
  {
    hide U32, WordAt, DecodeAll, Resume;
    var len := WordAt(data, 1);
    var arrBytes := 5;
    var items := [];
    ArrayDecodes(data);
    for i := 0 to len
      invariant 5 <= arrBytes <= |data|
      invariant Resume([], 0, DecodeAll(data[5..], len))
             == Resume(items, arrBytes - 5, DecodeAll(data[arrBytes..], len - i))
    {
      ResumeStep(data, arrBytes, items, arrBytes - 5, len - i);
      d := PrintResponse(data[arrBytes..]);
      if d.Bad? {
        return;
      }
      items := items + [d.r];
      arrBytes := arrBytes + d.size;
    }
    ResumeEnds(data[arrBytes..], items, arrBytes - 5);
    d := Good(Arr(items), arrBytes);
  }
}
