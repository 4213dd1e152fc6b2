/** Requests on the wire: the layout send_req() builds and parse_req() takes apart. */
module Requests {
  import opened Pairs
  import opened Buffers
  import opened Wire

  type Args = seq<Name>

  /** Each string with its length in front. */
  function Strings(cmd: Args): Bytes
    requires forall i | 0 <= i < |cmd| :: |cmd[i]| < UINT32_RANGE
  {
    if cmd == [] then [] else Strings(cmd[..|cmd| - 1]) + U32(|cmd[|cmd| - 1]|) + cmd[|cmd| - 1]
  }

  predicate Sendable(cmd: Args) {
    |cmd| < UINT32_RANGE && forall i | 0 <= i < |cmd| :: |cmd[i]| < UINT32_RANGE
  }

  /** The payload of a request. */
  function Payload(cmd: Args): Bytes
    requires Sendable(cmd)
  {
    U32(|cmd|) + Strings(cmd)
  }

  datatype Parsed = Refused | Accepted(cmd: Args)

  /** read_u32() */
  method ReadU32(data: Bytes, cur: nat) returns (ok: bool, n: u32, next: nat)
    requires cur <= |data|
    ensures ok <==> cur + 4 <= |data|
    ensures ok ==> next == cur + 4 && data[cur..next] == U32(n)
    ensures !ok ==> next == cur
  {
    n, next := 0, cur;
    ok := cur + 4 <= |data|;
    if ok {
      n, next := WordAt(data, cur), cur + 4;
      BytesOfWord(data, cur);
    }
  }

  /** read_str() */
  method ReadStr(data: Bytes, cur: nat, n: nat) returns (ok: bool, s: Name, next: nat)
    requires cur <= |data|
    ensures ok <==> cur + n <= |data|
    ensures ok ==> next == cur + n && s == data[cur..next]
    ensures !ok ==> next == cur
  {
    s, next := [], cur;
    ok := cur + n <= |data|;
    if ok {
      s, next := data[cur..cur + n], cur + n;
    }
  }

  /** The request is the payload of a command of at most 200000 strings. */
  ghost predicate IsRequest(data: Bytes, cmd: Args) {
    Sendable(cmd) && |cmd| <= MAX_ARGS && data == Payload(cmd)
  }

  lemma StringsNext(cmd: Args, s: Name)
    requires (forall i | 0 <= i < |cmd| :: |cmd[i]| < UINT32_RANGE) && |s| < UINT32_RANGE
    ensures Strings(cmd + [s]) == Strings(cmd) + U32(|s|) + s
  {
    assert (cmd + [s])[..|cmd|] == cmd;
  }

  /** The strings of a command up to the k-th are a prefix of the payload that ends where the next length starts. */
  lemma {:induction false} StringsPrefix(cmd: Args, k: nat)
    requires Sendable(cmd) && k <= |cmd|
    ensures Strings(cmd[..k]) <= Strings(cmd)
    ensures k < |cmd| ==> Strings(cmd[..k]) + U32(|cmd[k]|) + cmd[k] <= Strings(cmd)
    decreases |cmd|
  {
    if k < |cmd| {
      var front := cmd[..|cmd| - 1];
      if k == |cmd| - 1 {
        assert Strings(cmd[..k]) <= Strings(cmd);
      } else {
        StringsPrefix(front, k);
        assert front[..k] == cmd[..k] && front[k] == cmd[k];
      }
    } else {
      assert cmd[..k] == cmd;
    }
  }

  /** A string and its length, in the midst of some data. */
  lemma StringInside(data: Bytes, front: Bytes, s: Name)
    requires |s| < UINT32_RANGE && front + U32(|s|) + s <= data
    ensures var cur := |front|;
            && cur + 4 + |s| <= |data| && |U32(|s|)| == 4
            && data[cur..cur + 4] == U32(|s|) && data[cur + 4..cur + 4 + |s|] == s
  {
    WordOfBytes(|s|);
    hide U32;
    var upTo := front + U32(|s|) + s;
    assert data[..|upTo|] == upTo;
    assert upTo[|front|..|front| + 4] == U32(|s|) && upTo[|front| + 4..] == s;
    assert data[|front|..|front| + 4] == data[..|upTo|][|front|..|front| + 4];
    assert data[|front| + 4..|upTo|] == data[..|upTo|][|front| + 4..];
  }

  /** What follows the strings `out` in the payload of a longer command. */
  lemma NextString(data: Bytes, cmd: Args, out: Args, cur: nat)
    requires IsRequest(data, cmd) && |out| < |cmd| && out == cmd[..|out|]
    requires cur <= |data| && data[..cur] == U32(|cmd|) + Strings(out)
    ensures var s := cmd[|out|];
            && cur + 4 + |s| <= |data| && |U32(|s|)| == 4
            && data[cur..cur + 4] == U32(|s|) && data[cur + 4..cur + 4 + |s|] == s
  {
    hide U32, Strings;
    var s := cmd[|out|];
    StringsPrefix(cmd, |out|);
    PrefixOfPayload(U32(|cmd|), Strings(out), U32(|s|), s, Strings(cmd));
    StringInside(data, data[..cur], s);
  }

  lemma PrefixOfPayload(head: Bytes, front: Bytes, len: Bytes, s: Bytes, all: Bytes)
    requires front + len + s <= all
    ensures (head + front) + len + s <= head + all
  {
    assert (head + front) + len + s == head + (front + len + s);
    assert (head + all)[|head|..] == all;
    assert (head + all)[..|head| + |front + len + s|] == head + all[..|front + len + s|];
  }

  lemma WordsDiffer(m: u32, n: u32)
    ensures U32(m) == U32(n) ==> m == n
  {
    WordOfBytes(m);
    WordOfBytes(n);
  }

  /** The command a payload encodes, if there is one; at most one does. */
  ghost function Parse(data: Bytes): Parsed {
    if exists cmd :: IsRequest(data, cmd) then
      var cmd :| IsRequest(data, cmd);
      Accepted(cmd)
    else Refused
  }

  lemma ParseIs(data: Bytes, cmd: Args)
    requires IsRequest(data, cmd)
    ensures Parse(data) == Accepted(cmd)
  {
    var other := Parse(data).cmd;
    OnlyOneRequest(data, cmd, other, 0);
  }

  /** No two commands have the same payload. */
  lemma {:induction false} OnlyOneRequest(data: Bytes, c: Args, d: Args, k: nat)
    requires IsRequest(data, c) && IsRequest(data, d) && k <= |c| && k <= |d| && c[..k] == d[..k]
    ensures c == d
    decreases |c| - k
  {
    hide U32;
    WordOfBytes(|c|);
    WordOfBytes(|d|);
    assert data[..4] == U32(|c|) == U32(|d|);
    WordsDiffer(|c|, |d|);
    if k < |c| {
      var cur := 4 + |Strings(c[..k])|;
      StringsPrefix(c, k);
      assert data[..cur] == U32(|c|) + Strings(c[..k]);
      NextString(data, c, c[..k], cur);
      NextString(data, d, d[..k], cur);
      WordsDiffer(|c[k]|, |d[k]|);
      assert c[..k + 1] == c[..k] + [c[k]] && d[..k + 1] == d[..k] + [d[k]];
      OnlyOneRequest(data, c, d, k + 1);
    } else {
      assert c == c[..k] && d == d[..k];
    }
  }

  /** The strings read so far: every command with this payload starts with them. */
  ghost predicate ReadSoFar(data: Bytes, nstr: nat, out: Args, cur: nat) {
    && 4 <= cur <= |data| && |out| <= nstr <= MAX_ARGS
    && (forall i | 0 <= i < |out| :: |out[i]| < UINT32_RANGE)
    && data[..cur] == U32(nstr) + Strings(out)
    && forall cmd | IsRequest(data, cmd) :: |cmd| == nstr && cmd[..|out|] == out
  }

  lemma ReadStart(data: Bytes, nstr: u32)
    requires |data| >= 4 && data[..4] == U32(nstr)
    ensures if nstr > MAX_ARGS then Parse(data) == Refused else ReadSoFar(data, nstr, [], 4)
  {
    hide U32;
    forall cmd | IsRequest(data, cmd) ensures |cmd| == nstr {
      WordOfBytes(|cmd|);
      WordOfBytes(nstr);
      assert data[..4] == U32(|cmd|);
      WordsDiffer(|cmd|, nstr);
    }
  }

  lemma NextIs(data: Bytes, nstr: nat, out: Args, cur: nat, len: u32, cmd: Args)
    requires ReadSoFar(data, nstr, out, cur) && |out| < nstr && cur + 4 <= |data| && data[cur..cur + 4] == U32(len)
    requires IsRequest(data, cmd)
    ensures |cmd| == nstr && cur + 4 + len <= |data| && cmd[..|out| + 1] == out + [data[cur + 4..cur + 4 + len]]
  {
    hide U32, IsRequest;
    Restate(data, cmd);
    NextString(data, cmd, out, cur);
    WordsDiffer(len, |cmd[|out|]|);
    assert cmd[..|out| + 1] == cmd[..|out|] + [cmd[|out|]];
  }

  lemma Restate(data: Bytes, cmd: Args)
    requires IsRequest(data, cmd)
    ensures Sendable(cmd)
  {
  }

  lemma ReadAnother(data: Bytes, nstr: nat, out: Args, cur: nat, len: u32)
    requires ReadSoFar(data, nstr, out, cur) && |out| < nstr && cur + 4 <= |data| && data[cur..cur + 4] == U32(len)
    ensures cur + 4 + len > |data| ==> Parse(data) == Refused
    ensures cur + 4 + len <= |data| ==> ReadSoFar(data, nstr, out + [data[cur + 4..cur + 4 + len]], cur + 4 + len)
  {
    hide U32, IsRequest, Strings;
    forall cmd | IsRequest(data, cmd)
      ensures |cmd| == nstr && cur + 4 + len <= |data| && cmd[..|out| + 1] == out + [data[cur + 4..cur + 4 + len]]
    {
      NextIs(data, nstr, out, cur, len, cmd);
    }
    if cur + 4 + len <= |data| {
      var s := data[cur + 4..cur + 4 + len];
      StringsNext(out, s);
      assert data[..cur + 4 + len] == data[..cur] + data[cur..cur + 4] + s;
      assert U32(nstr) + Strings(out) + U32(len) + s == U32(nstr) + (Strings(out) + U32(len) + s);
    }
  }

  lemma NoRoomForLength(data: Bytes, nstr: nat, out: Args, cur: nat)
    requires ReadSoFar(data, nstr, out, cur) && |out| < nstr && cur + 4 > |data|
    ensures Parse(data) == Refused
  {
    hide U32;
    forall cmd ensures !IsRequest(data, cmd) {
      if IsRequest(data, cmd) {
        NextString(data, cmd, out, cur);
      }
    }
  }

  lemma ReadAll(data: Bytes, out: Args, cur: nat)
    requires ReadSoFar(data, |out|, out, cur)
    ensures Parse(data) == if cur == |data| then Accepted(out) else Refused
  {
    hide U32;
    if cur == |data| {
      assert data == data[..cur];
      ParseIs(data, out);
    } else {
      forall cmd ensures !IsRequest(data, cmd) {
        assert |cmd| == |out| && cmd[..|out|] == out ==> cmd == out;
      }
    }
  }

  /** parse_req(): accepts exactly the payloads of commands within the limits, and returns the command. */
  method ParseReq(data: Bytes) returns (p: Parsed)
    ensures p == Parse(data)
  {
    hide U32, Parse, ReadSoFar, IsRequest, Strings;
    var ok: bool, nstr: u32, cur: nat := ReadU32(data, 0);
    if !ok {
      TooShort(data);
      return Refused;
    }
    ReadStart(data, nstr);
    if nstr > MAX_ARGS {
      return Refused;
    }
    var out: Args := [];
    while |out| < nstr
      invariant ReadSoFar(data, nstr, out, cur) && |out| <= nstr && cur <= |data|
    {
      var len: u32;
      ghost var start := cur;
      ok, len, cur := ReadU32(data, cur);
      if !ok {
        NoRoomForLength(data, nstr, out, start);
        return Refused;
      }
      ReadAnother(data, nstr, out, start, len);
      var s;
      ok, s, cur := ReadStr(data, cur, len);
      if !ok {
        return Refused;
      }
      out := out + [s];
    }
    ReadAll(data, out, cur);
    p := if cur != |data| then Refused else Accepted(out);
  }

  lemma TooShort(data: Bytes)
    requires |data| < 4
    ensures Parse(data) == Refused
  {
    forall cmd ensures !IsRequest(data, cmd) {
      if Sendable(cmd) {
        WordOfBytes(|cmd|);
      }
    }
  }

  /** The size of the payload, without a limit. */
  function TotalSize(cmd: Args): nat {
    if cmd == [] then 4 else TotalSize(cmd[..|cmd| - 1]) + 4 + |cmd[|cmd| - 1]|
  }

  lemma {:induction false} SizeOfStrings(cmd: Args)
    requires forall i | 0 <= i < |cmd| :: |cmd[i]| < UINT32_RANGE
    ensures 4 + |Strings(cmd)| == TotalSize(cmd)
  {
    hide U32;
    if cmd != [] {
      SizeOfStrings(cmd[..|cmd| - 1]);
      WordOfBytes(|cmd[|cmd| - 1]|);
    }
  }

  /** The size of a command is at least that of any of its strings, and of their lengths. */
  lemma {:induction false} LongIsLarge(cmd: Args)
    ensures 4 + 4 * |cmd| <= TotalSize(cmd) && forall i | 0 <= i < |cmd| :: |cmd[i]| <= TotalSize(cmd)
  {
    if cmd != [] {
      LongIsLarge(cmd[..|cmd| - 1]);
    }
  }

  lemma TotalNext(cmd: Args, i: nat)
    requires i < |cmd|
    ensures TotalSize(cmd[..i + 1]) == TotalSize(cmd[..i]) + 4 + |cmd[i]|
  {
    assert cmd[..i + 1][..i] == cmd[..i];
  }

  /** The size loop of send_req(), in uint32_t. */
  method PayloadSize(cmd: Args) returns (size: u32)
    ensures size == Low32(TotalSize(cmd))
  {
    size := 4;
    for i := 0 to |cmd|
      invariant size == Low32(TotalSize(cmd[..i]))
    {
      TotalNext(cmd, i);
      size := Low32(size + 4 + |cmd[i]|);
    }
    assert cmd[..|cmd|] == cmd;
  }

  /** The limit is checked on the size in uint32_t: right unless a size of 2^32 or more wraps to a small one. */
  lemma LimitIsExact(size: nat)
    ensures (Low32(size) <= MAX_MSG <==> size <= MAX_MSG) <==> size < UINT32_RANGE || Low32(size) > MAX_MSG
  {
  }

  /** memcpy() into the buffer that is being filled. */
  function Put(buf: Bytes, at: nat, data: Bytes): (r: Bytes)
    requires at + |data| <= |buf|
    ensures |r| == |buf| && r[..at + |data|] == buf[..at] + data
  {
    buf[..at] + data + buf[at + |data|..]
  }

  /** The bytes send_req() writes to the socket, unless the request is too large. */
  method SendReq(cmd: Args) returns (ok: bool, wbuf: Bytes)
    requires TotalSize(cmd) < UINT32_RANGE || Low32(TotalSize(cmd)) > MAX_MSG
    ensures ok <==> Sendable(cmd) && |Payload(cmd)| <= MAX_MSG
    ensures ok ==> wbuf == U32(|Payload(cmd)|) + Payload(cmd)
  {
    hide U32, Put, TotalSize, Strings, Sendable, Payload;
    var size := PayloadSize(cmd);
    wbuf := [];
    ok := size <= MAX_MSG;
    LimitIsExact(TotalSize(cmd));
    SizeOfPayload(cmd);
    if ok {
      wbuf := Fill(cmd, size);
    }
  }

  /** Every payload has the total size; a total size below 2^32 is that of a payload. */
  lemma {:induction false} SizeOfPayload(cmd: Args)
    ensures TotalSize(cmd) < UINT32_RANGE ==> Sendable(cmd)
    ensures Sendable(cmd) ==> |Payload(cmd)| == TotalSize(cmd)
  {
    hide U32;
    if Sendable(cmd) {
      SizeOfStrings(cmd);
      WordOfBytes(|cmd|);
    } else {
      LongIsLarge(cmd);
    }
  }

  lemma {:induction false} NoStrings()
    ensures Strings([]) == []
  {
  }

  /** A length and a string. */
  method PutString(wbuf: Bytes, cur: nat, s: Name) returns (r: Bytes)
    requires |s| < UINT32_RANGE && cur + 4 + |s| <= |wbuf|
    ensures |r| == |wbuf| && r[..cur + 4 + |s|] == wbuf[..cur] + (U32(|s|) + s)
  {
    hide U32, Put;
    WordOfBytes(|s|);
    r := Put(wbuf, cur, U32(|s|));
    r := Put(r, cur + 4, s);
  }

  /** The buffer of send_req() */
  method Fill(cmd: Args, size: u32) returns (wbuf: Bytes)
    requires Sendable(cmd) && size == |Payload(cmd)|
    ensures wbuf == U32(size) + Payload(cmd)
  {
    hide U32, Strings;
    WordOfBytes(size);
    WordOfBytes(|cmd|);
    wbuf := seq(4 + size, _ => 0);
    wbuf := Put(wbuf, 0, U32(size));
    wbuf := Put(wbuf, 4, U32(|cmd|));
    var cur := 8;
    ghost var head := U32(size) + U32(|cmd|);
    NoStrings();
    for i := 0 to |cmd|
      invariant |wbuf| == 4 + size && cur == 8 + |Strings(cmd[..i])| <= |wbuf|
      invariant wbuf[..cur] == head + Strings(cmd[..i])
    {
      WordOfBytes(|cmd[i]|);
      StringsPrefix(cmd, i);
      assert cmd[..i + 1] == cmd[..i] + [cmd[i]];
      StringsNext(cmd[..i], cmd[i]);
      wbuf := PutString(wbuf, cur, cmd[i]);
      cur := cur + 4 + |cmd[i]|;
    }
    assert cmd[..|cmd|] == cmd && wbuf[..cur] == wbuf;
  }
}
