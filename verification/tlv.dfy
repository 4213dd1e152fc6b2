/** tlv.cc and the response framing of conn.cc: encoders that append to a buffer and fill in lengths afterwards. */
module Tlv {
  import opened Pairs
  import opened Buffers
  import opened Wire

  const ERR_TOO_BIG: u32 := 2

  /** "response too big" */
  const TOO_BIG_TEXT: Bytes := [114, 101, 115, 112, 111, 110, 115, 101, 32, 116, 111, 111, 32, 98, 105, 103]

  /** A buffer in which responses are being built: no placeholder lies before the unread start. */
  ghost predicate Ready(b: Buffer)
    reads b
  {
    b.Valid() && b.Anchored()
  }

  /** Something has been appended, and the pending placeholders are where they were. */
  twostate predicate Appended(b: Buffer, data: Bytes)
    requires old(Ready(b))
    reads b
  {
    Ready(b) && b.Unread() == old(b.Unread()) + data && b.Offsets() == old(b.Offsets())
  }

  /** out_nil() */
  method OutNil(b: Buffer)
    requires Ready(b)
    modifies b
    ensures Appended(b, Encode(Nil))
  {
    b.Append([TAG_NIL]);
  }

  /** out_str() */
  method OutStr(b: Buffer, text: Bytes)
    requires Ready(b)
    modifies b
    ensures Appended(b, Encode(Str(text)))
  {
    hide U32, Low32;
    b.Append([TAG_STR]);
    b.Append(U32(Low32(|text|)));
    b.Append(text);
  }

  /** out_int() */
  method OutInt(b: Buffer, n: i64)
    requires Ready(b)
    modifies b
    ensures Appended(b, Encode(Int(n)))
  {
    hide I64;
    b.Append([TAG_INT]);
    b.Append(I64(n));
  }

  /** out_dbl(), given the bytes of the number */
  method OutDbl(b: Buffer, bits: Bytes)
    requires Ready(b)
    modifies b
    ensures Appended(b, Encode(Dbl(bits)))
  {
    b.Append([TAG_DBL]);
    b.Append(bits);
  }

  /** out_err() */
  method OutErr(b: Buffer, code: u32, msg: Bytes)
    requires Ready(b)
    modifies b
    ensures Appended(b, Encode(Err(code, msg)))
  {
    hide U32, Low32;
    b.Append([TAG_ERR]);
    b.Append(U32(code));
    b.Append(U32(Low32(|msg|)));
    b.Append(msg);
  }

  /** out_arr(): the header of an array whose length is known. */
  method OutArr(b: Buffer, n: u32)
    requires Ready(b)
    modifies b
    ensures Appended(b, [TAG_ARR] + U32(n))
  {
    hide U32;
    b.Append([TAG_ARR]);
    b.Append(U32(n));
  }

  /** The innermost placeholder stands for four bytes at the given place of the unread bytes. */
  ghost predicate Pending(b: Buffer, at: nat)
    reads b
  {
    Ready(b) && b.Offsets() != [] && b.Offsets()[|b.Offsets()| - 1] == at && at + 4 <= |b.Unread()|
  }

  /** push_placeholder() and the four zero bytes that follow it. */
  method Reserve(b: Buffer)
    requires Ready(b)
    modifies b
    ensures Pending(b, |old(b.Unread())|) && b.Unread() == old(b.Unread()) + U32(0)
    ensures b.Offsets() == old(b.Offsets()) + [|old(b.Unread())|]
  {
    hide U32;
    b.PushPlaceholder();
    assert b.Anchored() && b.Offsets() == old(b.Offsets()) + [|old(b.Unread())|];
    WordOfBytes(0);
    b.Append(U32(0));
  }

  /** pop_placeholder() and memcpy() of the word that was still missing. */
  method FillIn(b: Buffer, n: u32, ghost at: nat)
    requires Pending(b, at)
    modifies b
    ensures Ready(b) && b.Unread() == Patched(old(b.Unread()), at, U32(n))
    ensures old(b.Offsets()) == b.Offsets() + [at]
  {
    hide U32;
    WordOfBytes(n);
    var pos := b.PopPlaceholder();
    assert forall i | 0 <= i < |b.placeholders| :: b.placeholders[i] == old(b.placeholders)[i];
    assert pos == b.readableBegin + at;
    b.Overwrite(pos, U32(n));
    assert old(b.Offsets()) == b.Offsets() + [at];
  }

  /** out_begin_arr() */
  method OutBeginArr(b: Buffer)
    requires Ready(b)
    modifies b
    ensures Pending(b, |old(b.Unread())| + 1) && b.Unread() == old(b.Unread()) + ([TAG_ARR] + U32(0))
    ensures b.Offsets() == old(b.Offsets()) + [|old(b.Unread())| + 1]
  {
    hide U32;
    b.Append([TAG_ARR]);
    Reserve(b);
  }

  /** out_end_arr(): the byte in front of the placeholder is the array tag, as asserted. */
  method OutEndArr(b: Buffer, n: u32, ghost at: nat)
    requires Pending(b, at) && at > 0 && b.Unread()[at - 1] == TAG_ARR
    modifies b
    ensures Ready(b) && b.Unread() == Patched(old(b.Unread()), at, U32(n))
    ensures old(b.Offsets()) == b.Offsets() + [at]
  {
    ghost var pos := b.placeholders[|b.placeholders| - 1];
    assert pos == b.readableBegin + at && b.buf[pos - 1] == TAG_ARR;
    FillIn(b, n, at);
  }

  lemma FilledIn(before: Bytes, n: u32, body: Bytes)
    ensures var s := before + ([TAG_ARR] + U32(0)) + body;
            && |U32(n)| == |U32(0)| == 4
            && Patched(s, |before| + 1, U32(n)) == before + ([TAG_ARR] + U32(n) + body)
  {
    WordOfBytes(n);
    WordOfBytes(0);
    hide U32;
    var s := before + ([TAG_ARR] + U32(0)) + body;
    assert s[..|before| + 1] == before + [TAG_ARR];
    assert s[|before| + 5..] == body;
  }

  /** A response written with nested deferred array lengths is the encoding of its tree. */
  method Write(b: Buffer, r: Res)
    requires Ready(b)
    modifies b
    ensures Appended(b, Encode(r))
    decreases r, 1
  {
    match r
    case Nil => OutNil(b);
    case Err(code, msg) => OutErr(b, code, msg);
    case Str(text) => OutStr(b, text);
    case Int(n) => OutInt(b, n);
    case Dbl(bits) => OutDbl(b, bits);
    case Arr(items) =>
      hide U32, Low32;
      ghost var at := |b.Unread()| + 1;
      OutBeginArr(b);
      WriteAll(b, items);
      FilledIn(old(b.Unread()), Low32(|items|), EncodeAll(items));
      OutEndArr(b, Low32(|items|), at);
      SameFront(old(b.Offsets()), b.Offsets(), at);
  }

  lemma SameFront(s: seq<int>, t: seq<int>, x: int)
    requires s + [x] == t + [x]
    ensures s == t
  {
    assert s == (s + [x])[..|s|] && t == (t + [x])[..|t|];
  }

  method WriteAll(b: Buffer, items: seq<Res>)
    requires Ready(b)
    modifies b
    ensures Appended(b, EncodeAll(items))
    decreases items, 0
  {
    hide Encode, U32;
    if items == [] {
      assert b.Unread() + EncodeAll(items) == b.Unread();
      return;
    }
    ghost var before, first, rest := b.Unread(), Encode(items[0]), EncodeAll(items[1..]);
    Write(b, items[0]);
    WriteAll(b, items[1..]);
    assert before + first + rest == before + (first + rest);
  }

  // ---- frames ----

  function Frame(body: Bytes): Bytes
    requires |body| < UINT32_RANGE
  {
    U32(|body|) + body
  }

  /** What is sent in the place of a body that is too long. */
  function Limited(body: Bytes): (r: Bytes)
    ensures |r| <= MAX_MSG
  {
    ErrorIsShort();
    if |body| > MAX_MSG then Encode(Err(ERR_TOO_BIG, TOO_BIG_TEXT)) else body
  }

  /** A body within the limit is sent as it is, behind its length; any other gives way to exactly one error. */
  lemma FrameOfLimited(body: Bytes)
    ensures |body| <= MAX_MSG ==> Frame(Limited(body)) == U32(|body|) + body
    ensures var error := Encode(Err(ERR_TOO_BIG, TOO_BIG_TEXT));
            |body| > MAX_MSG ==> |error| <= MAX_MSG && Frame(Limited(body)) == U32(|error|) + error
  {
    hide Encode, U32;
    ErrorIsShort();
  }

  /** response_begin() */
  method ResponseBegin(b: Buffer) returns (ghost at: nat)
    requires Ready(b)
    modifies b
    ensures at == |old(b.Unread())| && Pending(b, at) && b.Unread() == old(b.Unread()) + U32(0)
    ensures b.Offsets() == old(b.Offsets()) + [at]
  {
    at := |b.Unread()|;
    Reserve(b);
  }

  /** response_size() */
  method ResponseSize(b: Buffer, ghost at: nat) returns (size: nat)
    requires Pending(b, at)
    ensures size == |b.Unread()| - at - 4
  {
    size := b.writableBegin - b.placeholders[|b.placeholders| - 1] - 4;
  }

  /** Everything behind the header placeholder is given up. */
  method RollBack(b: Buffer, ghost at: nat)
    requires Pending(b, at)
    modifies b`writableBegin
    ensures Pending(b, at) && b.Offsets() == old(b.Offsets()) && b.Unread() == old(b.Unread())[..at + 4]
  {
    ghost var begin, end := b.readableBegin, b.writableBegin;
    assert begin + at == b.placeholders[|b.placeholders| - 1];
    b.writableBegin := b.placeholders[|b.placeholders| - 1] + 4;
    Shortened(b.buf, begin, begin + at + 4, end);
  }

  lemma Shortened(s: Bytes, begin: nat, middle: nat, end: nat)
    requires begin <= middle <= end <= |s|
    ensures s[begin..end][..middle - begin] == s[begin..middle]
  {
  }

  /** The rollback of response_end(): everything behind the header placeholder gives way to an error. */
  method ReplaceByError(b: Buffer, ghost at: nat)
    requires Pending(b, at)
    modifies b
    ensures Pending(b, at) && b.Offsets() == old(b.Offsets())
    ensures b.Unread() == old(b.Unread())[..at + 4] + Encode(Err(ERR_TOO_BIG, TOO_BIG_TEXT))
  {
    hide U32, Encode;
    RollBack(b, at);
    OutErr(b, ERR_TOO_BIG, TOO_BIG_TEXT);
  }

  lemma ErrorIsShort()
    ensures |Encode(Err(ERR_TOO_BIG, TOO_BIG_TEXT))| == 25
  {
    WordOfBytes(ERR_TOO_BIG);
    WordOfBytes(|TOO_BIG_TEXT|);
  }

  lemma Framed(s: Bytes, at: nat)
    requires at + 4 <= |s| && |s| - at - 4 < UINT32_RANGE
    ensures |U32(|s| - at - 4)| == 4 && Patched(s, at, U32(|s| - at - 4)) == s[..at] + Frame(s[at + 4..])
  {
    WordOfBytes(|s| - at - 4);
    hide U32;
  }

  /**
   response_end(): what was appended since response_begin() becomes one frame with its exact length;
   a body that is too long becomes one error value. Bytes queued before are not touched.
   */
  method ResponseEnd(b: Buffer, ghost at: nat)
    requires Pending(b, at)
    modifies b
    ensures Ready(b) && old(b.Offsets()) == b.Offsets() + [at]
    ensures b.Unread() == old(b.Unread())[..at] + Frame(Limited(old(b.Unread())[at + 4..]))
    ensures var body, error := old(b.Unread())[at + 4..], Encode(Err(ERR_TOO_BIG, TOO_BIG_TEXT));
            && (|body| <= MAX_MSG ==> b.Unread() == old(b.Unread())[..at] + (U32(|body|) + body))
            && (|body| > MAX_MSG ==> |error| <= MAX_MSG && b.Unread() == old(b.Unread())[..at] + (U32(|error|) + error))
  {
    hide U32, Encode, Frame;
    ErrorIsShort();
    FrameOfLimited(b.Unread()[at + 4..]);
    var size := ResponseSize(b, at);
    if size > MAX_MSG {
      ReplaceByError(b, at);
      size := ResponseSize(b, at);
    }
    ghost var s := b.Unread();
    Framed(s, at);
    FillIn(b, size, at);
    assert s[..at] == old(b.Unread())[..at];
    assert s[at + 4..] == Limited(old(b.Unread())[at + 4..]);
  }

  /** Header and body of a response tree, as the client reads them back. */
  lemma FrameDecodes(r: Res, rest: Bytes)
    requires Fits(r) && |Encode(r)| <= MAX_MSG
    ensures var s := Frame(Encode(r)) + rest;
            && |s| >= 4 && WordAt(s, 0) == |Encode(r)| && |s| >= 4 + WordAt(s, 0)
            && Decode(s[4..4 + WordAt(s, 0)]) == Good(r, WordAt(s, 0))
  {
    hide U32, Encode, Decode;
    var s := Frame(Encode(r)) + rest;
    WordInside([], |Encode(r)|, Encode(r) + rest);
    assert s == [] + U32(|Encode(r)|) + (Encode(r) + rest);
    assert s[4..4 + |Encode(r)|] == Encode(r) + [];
    DecodeEncoded(r, []);
  }
}
