/** The growable string buffer of json.c. */
module JsonBuffer {
  import opened Chars

  /** Writes `bytes` into `b` from index `at` on, one after the other. */
  method StoreAt(b: array<Byte>, at: nat, bytes: seq<Byte>) returns (next: nat)
    requires at + |bytes| <= b.Length
    modifies b
    ensures next == at + |bytes|
    ensures b[..next] == old(b[..at]) + bytes
  {
    next := at;
    for i := 0 to |bytes|
      invariant next == at + i
      invariant b[..next] == old(b[..at]) + bytes[..i]
    {
      b[next] := bytes[i];
      next := next + 1;
    }
  }

  predicate NoNul(s: seq<Byte>) {
    forall i | 0 <= i < |s| :: s[i] != 0
  }

  function AsText(s: seq<Byte>): (t: Text)
    requires NoNul(s)
    ensures t == s
  {
    s
  }

  /** SB: `buf` is the allocation, with one byte behind `end` for the terminator. */
  class SB {
    var buf: array<Byte>
    var cur: nat
    var end: nat

    ghost predicate Valid()
      reads this, buf
    {
      0 < end && cur <= end && buf.Length == end + 1 && NoNul(buf[..cur])
    }

    /** The characters written so far. */
    ghost function Contents(): Text
      requires Valid()
      reads this, buf
    {
      AsText(buf[..cur])
    }

    /** sb_init */
    constructor ()
      ensures Valid() && Contents() == [] && fresh(buf)
    {
      buf := new Byte[17];
      cur, end := 0, 16;
    }

    /** sb_need */
    method Need(need: nat)
      requires Valid()
      modifies this
      ensures Valid() && Contents() == old(Contents()) && cur == old(cur)
      ensures buf == old(buf) || fresh(buf)
      ensures end - cur >= need
    {
      if end - cur < need {
        Grow(need);
      }
    }

    /** sb_grow */
    method Grow(need: nat)
      requires Valid()
      modifies this
      ensures Valid() && Contents() == old(Contents()) && cur == old(cur)
      ensures fresh(buf) && end - cur >= need
    {
      var alloc := end * 2;
      while alloc < cur + need
        invariant alloc >= end * 2
      {
        alloc := alloc * 2;
      }
      var bigger := new Byte[alloc + 1];
      var _ := StoreAt(bigger, 0, buf[..cur]);
      assert bigger[..cur] == buf[..cur];
      buf, end := bigger, alloc;
    }

    /** sb_put, and sb_puts for a string */
    method Put(bytes: Text)
      requires Valid()
      modifies this, buf
      ensures Valid() && Contents() == old(Contents()) + bytes
      ensures buf == old(buf) || fresh(buf)
    {
      Need(|bytes|);
      cur := StoreAt(buf, cur, bytes);
    }

    /** sb_putc */
    method Putc(c: Char)
      requires Valid()
      modifies this, buf
      ensures Valid() && Contents() == old(Contents()) + [c]
      ensures buf == old(buf) || fresh(buf)
    {
      if cur >= end {
        Grow(1);
      }
      ghost var was := buf[..cur];
      buf[cur] := c;
      cur := cur + 1;
      assert buf[..cur] == was + [c];
    }

    /** The bytes in front of `b` become part of the contents: `sb->cur = b`. */
    method Advance(b: nat)
      requires 0 < end && b <= end && buf.Length == end + 1 && NoNul(buf[..b])
      modifies this`cur
      ensures Valid() && cur == b && Contents() == buf[..b]
    {
      cur := b;
    }

    /** sb_finish: the finished C string, which ends at its first zero byte. */
    method Finish() returns (s: Text)
      requires Valid()
      modifies buf
      ensures s == old(Contents())
      ensures cur < buf.Length && buf[cur] == 0 && buf[..cur] == s && NoNul(buf[..cur])
    {
      buf[cur] := 0;
      s := AsText(buf[..cur]);
    }
  }
}
