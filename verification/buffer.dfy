/** buffer.cc: a byte buffer that compacts and grows, with positions to be filled in later. */
module Buffers {
  import opened Pairs

  type Bytes = seq<byte>

  function Larger(a: nat, b: nat): nat {
    if a > b then a else b
  }

  class Buffer {
    var buf: Bytes
    var readableBegin: nat
    var writableBegin: nat
    var placeholders: seq<nat>

    ghost predicate Valid()
      reads this
    {
      readableBegin <= writableBegin <= |buf|
    }

    /** The bytes that have been appended and not yet consumed. */
    ghost function Unread(): Bytes
      requires Valid()
      reads this
    {
      buf[readableBegin..writableBegin]
    }

    /** Where the placeholders lie, counted from the unread start. */
    ghost function Offsets(): seq<int>
      reads this
    {
      seq(|placeholders|, i requires 0 <= i < |placeholders| reads this => placeholders[i] - readableBegin)
    }

    ghost predicate Anchored()
      reads this
    {
      forall i | 0 <= i < |placeholders| :: readableBegin <= placeholders[i]
    }

    constructor (capacity: nat)
      ensures Valid() && Unread() == [] && placeholders == [] && |buf| == capacity
    {
      buf, readableBegin, writableBegin, placeholders := seq(capacity, _ => 0), 0, 0, [];
    }

    function ReadableSize(): nat
      requires Valid()
      reads this
    {
      writableBegin - readableBegin
    }

    function WritableSize(): nat
      requires Valid()
      reads this
    {
      |buf| - writableBegin
    }

    /** Every placeholder at or behind the unread start keeps its distance from it; the others stay. */
    twostate predicate KeepsPlaceholders()
      reads this
    {
      && |placeholders| == |old(placeholders)|
      && forall i | 0 <= i < |placeholders| ::
           if old(placeholders[i]) >= old(readableBegin)
           then placeholders[i] - readableBegin == old(placeholders[i] - readableBegin)
           else placeholders[i] == old(placeholders[i])
    }

    /** The loop over the placeholder stack that follows every move of the unread bytes to the front. */
    method ShiftPlaceholders(shift: nat)
      modifies `placeholders
      ensures |placeholders| == |old(placeholders)|
      ensures forall i | 0 <= i < |placeholders| ::
                placeholders[i] == if old(placeholders[i]) >= shift then old(placeholders[i]) - shift
                  else old(placeholders[i])
    {
      for i := 0 to |placeholders|
        invariant |placeholders| == |old(placeholders)|
        invariant forall k | i <= k < |placeholders| :: placeholders[k] == old(placeholders[k])
        invariant forall k | 0 <= k < i ::
                    placeholders[k] == if old(placeholders[k]) >= shift then old(placeholders[k]) - shift
                      else old(placeholders[k])
      {
        if placeholders[i] >= shift {
          placeholders := placeholders[i := placeholders[i] - shift];
        }
      }
    }

    /** ensure_writable(): makes room by moving the unread bytes to the front, or by growing. */
    method EnsureWritable(n: nat)
      requires Valid()
      modifies this
      ensures Valid() && WritableSize() >= n && Unread() == old(Unread()) && KeepsPlaceholders()
      ensures old(Anchored()) ==> Anchored() && Offsets() == old(Offsets())
      ensures |buf| == if old(WritableSize() + readableBegin) >= n then old(|buf|)
                       else Larger(old(|buf|) * 2, old(ReadableSize()) + n)
    {
      if WritableSize() >= n {
        return;
      }
      var unreadLen, oldBegin := ReadableSize(), readableBegin;
      var unread := buf[readableBegin..writableBegin];
      if readableBegin + WritableSize() >= n {
        buf := unread + buf[unreadLen..];
      } else {
        var newCap := Larger(|buf| * 2, unreadLen + n);
        buf := unread + seq(newCap - unreadLen, _ => 0);
      }
      readableBegin, writableBegin := 0, unreadLen;
      ShiftPlaceholders(oldBegin);
    }

    /** append() */
    method Append(data: Bytes)
      requires Valid()
      modifies this
      ensures Valid() && Unread() == old(Unread()) + data && KeepsPlaceholders()
      ensures old(Anchored()) ==> Anchored() && Offsets() == old(Offsets())
    {
      EnsureWritable(|data|);
      buf := buf[..writableBegin] + data + buf[writableBegin + |data|..];
      writableBegin := writableBegin + |data|;
    }

    /** consume(): at most everything there is; an empty buffer starts over at its front. */
    method Consume(n: nat)
      requires Valid()
      modifies `readableBegin, `writableBegin
      ensures Valid() && Unread() == old(Unread())[Min(n, old(ReadableSize()))..]
      ensures Unread() == [] ==> readableBegin == 0
    {
      readableBegin := readableBegin + Min(n, ReadableSize());
      if readableBegin >= writableBegin {
        readableBegin, writableBegin := 0, 0;
      }
    }

    /** shrink_if_wasteful(): gives memory back when less than a quarter is in use. */
    method ShrinkIfWasteful(hardMin: nat)
      requires Valid()
      modifies this
      ensures Valid() && Unread() == old(Unread()) && KeepsPlaceholders()
      ensures old(Anchored()) ==> Anchored() && Offsets() == old(Offsets())
      ensures |buf| == if old(|buf|) > Larger(hardMin, old(ReadableSize()) * 4)
                       then Larger(hardMin, old(ReadableSize()) * 2) else old(|buf|)
    {
      var unreadLen := ReadableSize();
      if |buf| > Larger(hardMin, unreadLen * 4) {
        var newCap := Larger(hardMin, unreadLen * 2);
        var shift := readableBegin;
        buf := buf[readableBegin..writableBegin] + seq(newCap - unreadLen, _ => 0);
        readableBegin, writableBegin := 0, unreadLen;
        ShiftPlaceholders(shift);
      }
    }

    /** push_placeholder() */
    method PushPlaceholder()
      requires Valid()
      modifies `placeholders
      ensures placeholders == old(placeholders) + [writableBegin]
    {
      placeholders := placeholders + [writableBegin];
    }

    /** pop_placeholder() */
    method PopPlaceholder() returns (pos: nat)
      requires placeholders != []
      modifies `placeholders
      ensures old(placeholders) == placeholders + [pos]
    {
      pos := placeholders[|placeholders| - 1];
      placeholders := placeholders[..|placeholders| - 1];
    }

    /** memcpy() of some bytes into the unread part. */
    method Overwrite(pos: nat, data: Bytes)
      requires Valid() && readableBegin <= pos && pos + |data| <= writableBegin
      modifies `buf
      ensures Valid() && Unread() == Patched(old(Unread()), pos - readableBegin, data) && |buf| == old(|buf|)
    {
      buf := buf[..pos] + data + buf[pos + |data|..];
    }
  }

  function Patched(s: Bytes, at: nat, data: Bytes): Bytes
    requires at + |data| <= |s|
  {
    s[..at] + data + s[at + |data|..]
  }
}
