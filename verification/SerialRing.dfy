/** The serial pushback ring: a fixed array with head and tail that is a queue of one byte less than its size. */
module SerialRing {
  import opened Bytes

  class Ring {
    const bytes: array<u8>
    var head: u16
    var tail: u16

    ghost predicate Valid()
      reads this
    {
      0 < bytes.Length <= 0xFFFF && head < bytes.Length && tail < bytes.Length
    }

    /** The queue: from head to tail, around the end of the array. */
    ghost function Contents(): (s: seq<u8>)
      requires Valid()
      reads this, bytes
      ensures |s| < bytes.Length
    {
      if head <= tail then bytes[head..tail] else bytes[head..] + bytes[..tail]
    }

    constructor (cap: u16)
      requires cap > 0
      ensures Valid() && bytes.Length == cap && Contents() == [] && fresh(bytes)
    {
      bytes := new u8[cap];
      head, tail := 0, 0;
    }

    /** An index one past the end wraps to 0. */
    function Wrap(i: nat): (r: nat)
      requires 0 < bytes.Length && i < 2 * bytes.Length
      ensures r == if i < bytes.Length then i else i - bytes.Length
    {
      WrapIsMod(i, bytes.Length);
      i % bytes.Length
    }

    function Count(): (n: nat)
      requires Valid()
      reads this, bytes
      ensures n == |Contents()|
    {
      Wrap(tail + bytes.Length - head)
    }

    function Free(): (n: nat)
      requires Valid()
      reads this, bytes
      ensures n == bytes.Length - 1 - |Contents()|
    {
      bytes.Length - 1 - Count()
    }

    method PushTail(b: u8)
      requires Valid() && Free() > 0
      modifies this`tail, bytes
      ensures Valid() && Contents() == old(Contents()) + [b]
    {
      bytes[tail] := b;
      tail := Wrap(tail + 1);
    }

    method PopHead() returns (b: u8)
      requires Valid() && Count() > 0
      modifies this`head
      ensures Valid() && old(Contents()) == [b] + Contents()
    {
      b := bytes[head];
      head := Wrap(head + 1);
    }

    method PrependHead(b: u8)
      requires Valid() && Free() > 0
      modifies this`head, bytes
      ensures Valid() && Contents() == [b] + old(Contents())
    {
      head := Wrap(head + bytes.Length - 1);
      bytes[head] := b;
    }

    /** Takes what the port has, as far as there is room: `incoming` is what reading it would give, None a read error. */
    method Preload(incoming: seq<Option<u8>>) returns (taken: nat)
      requires Valid()
      modifies this`tail, bytes
      ensures Valid() && taken <= |incoming| && forall i :: 0 <= i < taken ==> incoming[i].Some?
      ensures Contents() == old(Contents()) + Values(incoming[..taken])
      ensures taken == |incoming| || incoming[taken].None? || Free() == 0
    {
      hide Contents, Count, Free, Wrap;
      taken := 0;
      assert old(Contents()) + Values(incoming[..0]) == old(Contents());
      while taken < |incoming| && Free() > 0
        invariant Valid() && taken <= |incoming| && forall i :: 0 <= i < taken ==> incoming[i].Some?
        invariant Contents() == old(Contents()) + Values(incoming[..taken])
      {
        if incoming[taken].None? {
          return;
        }
        PushTail(incoming[taken].value);
        assert incoming[..taken + 1][..taken] == incoming[..taken];
        taken := taken + 1;
      }
    }

    method PushbackRead() returns (b: Option<u8>)
      requires Valid()
      modifies this`head
      ensures Valid()
      ensures if old(Contents()) == [] then b == None && Contents() == []
              else b.Some? && old(Contents()) == [b.value] + Contents()
    {
      if Count() == 0 {
        return None;
      }
      var head := PopHead();
      return Some(head);
    }

    /** Puts a block back in front, whole and in order, or not at all. */
    method PushbackReturn(block: seq<u8>)
      requires Valid()
      modifies this`head, bytes
      ensures Valid()
      ensures Contents() == if |block| + |old(Contents())| < bytes.Length then block + old(Contents()) else old(Contents())
    {
      hide Contents, Count, Free, Wrap;
      if |block| == 0 || |block| > Free() {
        assert [] + old(Contents()) == old(Contents());
        return;
      }
      var i := |block|;
      assert block[i..] + old(Contents()) == old(Contents());
      while i > 0
        invariant 0 <= i <= |block| && Valid() && Contents() == block[i..] + old(Contents())
      {
        assert block[i - 1..] + old(Contents()) == [block[i - 1]] + (block[i..] + old(Contents()));
        PrependHead(block[i - 1]);
        i := i - 1;
      }
    }
  }

  lemma WrapIsMod(i: nat, cap: nat)
    requires 0 < cap && i < 2 * cap
    ensures i % cap == if i < cap then i else i - cap
  {
    if i >= cap {
      assert i == 1 * cap + (i - cap);
    }
  }

  function Values(s: seq<Option<u8>>): seq<u8>
    requires forall i :: 0 <= i < |s| ==> s[i].Some?
  {
    if s == [] then [] else Values(s[..|s| - 1]) + [s[|s| - 1].value]
  }
}
