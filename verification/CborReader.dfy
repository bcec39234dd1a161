/** The firmware's CBOR cursor: a byte range and a position that every read moves in place. */
module CborReader {
  import opened Bytes
  import opened CborGrammar

  const OPEN_BYTES: u8 := 0x5F
  const MAJOR_BYTES: major := 2
  const MAJOR_TEXT: major := 3
  const MAJOR_TAG: major := 6

  // ---- What the string reads yield ----

  /** The outcome of a byte-string read: the content on success, and where the cursor stands either way. */
  datatype Scan = Scan(ok: bool, content: seq<u8>, pos: nat)

  /** A definite-length string of major type `m`: its content and its end. */
  function StrAt(d: seq<u8>, p: nat, m: major): (r: Option<(seq<u8>, nat)>)
    ensures r.Some? ==> p < r.value.1 <= |d|
  {
    match HeadAt(d, p)
    case None => None
    case Some(Head(m', arg, q)) =>
      if m' == m && arg.Value() <= |d| - q then Some((d[q..q + arg.Value()], q + arg.Value())) else None
  }

  /** The chunks of an indefinite-length byte string, from `p` on, into a buffer of `cap` bytes already holding `acc`. */
  function ChunksFrom(d: seq<u8>, p: nat, acc: seq<u8>, cap: nat): (r: Scan)
    requires p <= |d|
    ensures p <= r.pos <= |d| && (r.ok ==> |r.content| <= cap)
    decreases |d| - p
  {
    if p == |d| then Scan(false, acc, p)
    else if d[p] == BREAK_BYTE then Scan(|acc| <= cap, acc, p + 1)
    else match HeadAt(d, p)
      case None => Scan(false, acc, p)
      case Some(Head(m, arg, q)) =>
        var n := arg.Value();
        if m != MAJOR_BYTES || n > |d| - q || 0xFFFF - |acc| < n || |acc| + n > cap then Scan(false, acc, q)
        else ChunksFrom(d, q + n, acc + d[q..q + n], cap)
  }

  /** How a run of chunks ends, or is given up. */
  lemma ChunksEndAt(d: seq<u8>, p: nat, acc: seq<u8>, cap: nat)
    requires p <= |d|
    ensures p == |d| ==> ChunksFrom(d, p, acc, cap) == Scan(false, acc, p)
    ensures p < |d| && d[p] == BREAK_BYTE ==> ChunksFrom(d, p, acc, cap) == Scan(|acc| <= cap, acc, p + 1)
    ensures p < |d| && d[p] != BREAK_BYTE && HeadAt(d, p).None? ==> ChunksFrom(d, p, acc, cap) == Scan(false, acc, p)
    ensures p < |d| && d[p] != BREAK_BYTE && HeadAt(d, p).Some? ==>
              var h := HeadAt(d, p).value;
              h.m != MAJOR_BYTES || h.arg.Value() > |d| - h.end || 0xFFFF - |acc| < h.arg.Value() || |acc| + h.arg.Value() > cap
              ==> ChunksFrom(d, p, acc, cap) == Scan(false, acc, h.end)
  {
    hide HeadAt;
  }

  /** One accepted chunk: its content is appended and reading goes on behind it. */
  lemma ChunkStep(d: seq<u8>, p: nat, acc: seq<u8>, cap: nat, n: u32, q: nat)
    requires p < |d| && d[p] != BREAK_BYTE && |acc| + n <= cap && |acc| + n <= 0xFFFF && q + n <= |d|
    requires HeadAt(d, p).Some? && HeadAt(d, p).value.m == MAJOR_BYTES
    requires HeadAt(d, p).value.arg.Value() == n && HeadAt(d, p).value.end == q
    ensures ChunksFrom(d, p, acc, cap) == ChunksFrom(d, q + n, acc + d[q..q + n], cap)
  {
    hide HeadAt;
  }

  function OpenBytesAt(d: seq<u8>, p: nat, cap: nat): (r: Scan)
    requires p <= |d|
    ensures p <= r.pos <= |d|
  {
    if p < |d| && d[p] == OPEN_BYTES then ChunksFrom(d, p + 1, [], cap) else Scan(false, [], p)
  }

  function FlexibleAt(d: seq<u8>, p: nat, cap: nat): (r: Scan)
    requires p <= |d|
    ensures p <= r.pos <= |d|
  {
    var s := StrAt(d, p, MAJOR_BYTES);
    if s.Some? && |s.value.0| <= cap then Scan(true, s.value.0, s.value.1) else OpenBytesAt(d, p, cap)
  }

  function MaybeTaggedAt(d: seq<u8>, p: nat, cap: nat): (r: Scan)
    requires p <= |d|
    ensures p <= r.pos <= |d|
  {
    var f := FlexibleAt(d, p, cap);
    if f.ok then f
    else
      var h := HeadAt(d, f.pos);
      if h.Some? && h.value.m == MAJOR_TAG then FlexibleAt(d, h.value.end, cap) else Scan(false, [], f.pos)
  }

  // ---- The cursor ----

  class Cursor {
    const data: Span
    var pos: u16
    /** Entries into SkipDepth so far. */
    ghost var calls: nat

    ghost predicate Valid()
      reads this
    {
      pos <= |data|
    }

    constructor (data: Span)
      ensures Valid() && this.data == data && pos == 0 && calls == 0
    {
      this.data, pos, calls := data, 0, 0;
    }

    function Remaining(count: u32): bool
      reads this
    {
      pos <= |data| && |data| - pos >= count
    }

    method Next() returns (b: u8)
      requires Valid()
      modifies this`pos
      ensures Valid()
      ensures old(pos) < |data| ==> b == data[old(pos)] && pos == old(pos) + 1
      ensures old(pos) == |data| ==> b == 0 && pos == old(pos)
    {
      if pos < |data| {
        b := data[pos];
        pos := pos + 1;
      } else {
        b := 0;
      }
    }

    method ReadHead() returns (ok: bool, m: u8, value: u32)
      requires Valid()
      modifies this`pos
      ensures Valid()
      ensures ok == HeadAt(data, old(pos)).Some?
      ensures ok ==> var h := HeadAt(data, old(pos)).value; m == h.m && value == h.arg.Value() && pos == h.end
      ensures !ok ==> pos == old(pos)
    {
      ok, m, value := false, 0, 0;
      if pos >= |data| {
        return;
      }
      var start := pos;
      var ib := Next();
      m := ib / 32;
      var ai := ib % 32;
      if ai < 24 {
        value := ai;
        return true, m, value;
      }
      if ai == 24 {
        if !Remaining(1) {
          pos := start;
          return;
        }
        value := Next();
        return true, m, value;
      }
      if ai == 25 {
        if !Remaining(2) {
          pos := start;
          return;
        }
        var b1 := Next();
        var b0 := Next();
        value := Be16(b1, b0);
        return true, m, value;
      }
      if ai == 26 {
        if !Remaining(4) {
          pos := start;
          return;
        }
        var b3 := Next();
        var b2 := Next();
        var b1 := Next();
        var b0 := Next();
        value := Be32(b3, b2, b1, b0);
        return true, m, value;
      }
      pos := start;
    }

    method ReadUint() returns (ok: bool, value: u32)
      requires Valid()
      modifies this`pos
      ensures Valid()
      ensures ok <==> HeadAt(data, old(pos)).Some? && HeadAt(data, old(pos)).value.m == 0
      ensures ok ==> var h := HeadAt(data, old(pos)).value; value == h.arg.Value() && pos == h.end
      ensures !ok ==> pos == old(pos)
    {
      var start := pos;
      var m;
      ok, m, value := ReadHead();
      if !ok {
        return;
      }
      if m != 0 {
        pos := start;
        ok := false;
      }
    }

    /** Copies `n` bytes at the cursor into `buffer` from `at` on, as the readers' store loops do. */
    method CopyOut(buffer: array<u8>, at: nat, n: nat)
      requires Valid() && pos + n <= |data| && at + n <= buffer.Length
      modifies this`pos, buffer
      ensures Valid() && pos == old(pos) + n
      ensures buffer[at..at + n] == data[old(pos)..old(pos) + n]
      ensures buffer[..at] == old(buffer[..at]) && buffer[at + n..] == old(buffer[at + n..])
    {
      var i := 0;
      while i < n
        invariant 0 <= i <= n && pos == old(pos) + i <= |data|
        invariant buffer[at..at + i] == data[old(pos)..pos]
        invariant buffer[..at] == old(buffer[..at]) && buffer[at + i..] == old(buffer[at + i..])
      {
        buffer[at + i] := data[pos];
        pos := pos + 1;
        i := i + 1;
        assert data[old(pos)..pos] == data[old(pos)..pos - 1] + [data[pos - 1]];
      }
    }

    /** A text read needs room for the terminator, which follows the text in the buffer. */
    method ReadText(buffer: array<u8>) returns (ok: bool)
      requires Valid() && buffer.Length <= 0xFFFF
      modifies this`pos, buffer
      ensures Valid()
      ensures var s := StrAt(data, old(pos), MAJOR_TEXT);
              && ok == (s.Some? && |s.value.0| < buffer.Length)
              && (ok ==> pos == s.value.1 && buffer[..|s.value.0|] == s.value.0 && buffer[|s.value.0|] == 0
                         && buffer[|s.value.0| + 1..] == old(buffer[|s.value.0| + 1..]))
      ensures !ok ==> pos == old(pos) && buffer[..] == old(buffer[..])
    {
      var start := pos;
      var m, n;
      ok, m, n := ReadHead();
      if !ok {
        return;
      }
      if m != MAJOR_TEXT || buffer.Length == 0 || !Remaining(n) || n >= buffer.Length {
        pos := start;
        return false;
      }
      CopyOut(buffer, 0, n);
      buffer[n] := 0;
    }

    method ReadBytes(buffer: array<u8>) returns (ok: bool, outLen: u16)
      requires Valid() && buffer.Length <= 0xFFFF
      modifies this`pos, buffer
      ensures Valid()
      ensures var s := StrAt(data, old(pos), MAJOR_BYTES);
              && ok == (s.Some? && |s.value.0| <= buffer.Length)
              && (ok ==> pos == s.value.1 && outLen == |s.value.0| && buffer[..outLen] == s.value.0
                         && buffer[outLen..] == old(buffer[outLen..]))
      ensures !ok ==> pos == old(pos) && buffer[..] == old(buffer[..])
    {
      outLen := 0;
      var start := pos;
      var m, n;
      ok, m, n := ReadHead();
      if !ok {
        return;
      }
      if m != MAJOR_BYTES || !Remaining(n) || n > 0xFFFF || n > buffer.Length {
        pos := start;
        return false, outLen;
      }
      outLen := n;
      CopyOut(buffer, 0, n);
    }

    method ReadBytesIndefinite(buffer: array<u8>) returns (ok: bool, outLen: u16)
      requires Valid() && buffer.Length <= 0xFFFF
      modifies this`pos, buffer
      ensures Valid()
      ensures var r := OpenBytesAt(data, old(pos), buffer.Length);
              && ok == r.ok && pos == r.pos
              && (ok ==> outLen == |r.content| <= buffer.Length && buffer[..outLen] == r.content)
      ensures ok ==> buffer[outLen..] == old(buffer[outLen..])
    {
      hide HeadAt, ChunksFrom;
      ok, outLen := false, 0;
      if !Remaining(1) || data[pos] != OPEN_BYTES {
        return;
      }
      pos := pos + 1;
      var total := 0;
      while pos < |data|
        invariant Valid() && 0 <= total <= buffer.Length && buffer[total..] == old(buffer[total..])
        invariant OpenBytesAt(data, old(pos), buffer.Length) == ChunksFrom(data, pos, buffer[..total], buffer.Length)
        decreases |data| - pos
      {
        ChunksEndAt(data, pos, buffer[..total], buffer.Length);
        if data[pos] == BREAK_BYTE {
          pos := pos + 1;
          return true, total;
        }
        ghost var start := pos;
        var headOk, m, n := ReadHead();
        if !headOk || m != MAJOR_BYTES || !Remaining(n) || 0xFFFF - total < n {
          return;
        }
        if total + n > buffer.Length {
          return;
        }
        ghost var longer := buffer[..total] + data[pos..pos + n];
        ChunkStep(data, start, buffer[..total], buffer.Length, n, pos);
        CopyOut(buffer, total, n);
        assert buffer[..total + n] == longer;
        total := total + n;
      }
      ChunksEndAt(data, pos, buffer[..total], buffer.Length);
    }

    method ReadBytesFlexible(buffer: array<u8>) returns (ok: bool, outLen: u16)
      requires Valid() && buffer.Length <= 0xFFFF
      modifies this`pos, buffer
      ensures Valid()
      ensures var r := FlexibleAt(data, old(pos), buffer.Length);
              && ok == r.ok && pos == r.pos
              && (ok ==> outLen == |r.content| <= buffer.Length && buffer[..outLen] == r.content)
      ensures ok ==> buffer[outLen..] == old(buffer[outLen..])
    {
      ok, outLen := ReadBytes(buffer);
      if ok {
        return;
      }
      ok, outLen := ReadBytesIndefinite(buffer);
    }

    method ReadBytesMaybeTagged(buffer: array<u8>) returns (ok: bool, outLen: u16)
      requires Valid() && buffer.Length <= 0xFFFF
      modifies this`pos, buffer
      ensures Valid()
      ensures var r := MaybeTaggedAt(data, old(pos), buffer.Length);
              && ok == r.ok && pos == r.pos
              && (ok ==> outLen == |r.content| <= buffer.Length && buffer[..outLen] == r.content)
    {
      ok, outLen := ReadBytesFlexible(buffer);
      if ok {
        return;
      }
      var back := pos;
      var headOk, m, _ := ReadHead();
      if !headOk || m != MAJOR_TAG {
        pos := back;
        return;
      }
      ok, outLen := ReadBytesFlexible(buffer);
    }

    /** Success is exactly the recogniser's; the work done is bounded by the bytes passed, whatever a head announces. */
    method Skip() returns (ok: bool)
      requires Valid()
      modifies this
      ensures Valid() && old(pos) <= pos
      ensures ok == End(data, old(pos), 0).Some? && (ok ==> pos == End(data, old(pos), 0).value)
      ensures calls - old(calls) <= |data| - old(pos) + 1
    {
      ok := SkipDepth(0);
    }

    method SkipDepth(depth: nat) returns (ok: bool)
      requires Valid()
      modifies this
      ensures Valid() && old(pos) <= pos
      ensures ok == End(data, old(pos), depth).Some? && (ok ==> pos == End(data, old(pos), depth).value)
      ensures calls - old(calls) <= pos - old(pos) + (if ok then 0 else 1)
      decreases MAX_NEST_DEPTH + 1 - depth, 1
    {
      calls := calls + 1;
      if depth > MAX_NEST_DEPTH {
        return false;
      }
      if pos >= |data| {
        return false;
      }
      var ib := data[pos];
      if ib % 32 == 31 {
        pos := pos + 1;
        var m := ib / 32;
        if m == MAJOR_BYTES || m == MAJOR_TEXT {
          ok := SkipChunks(m);
        } else if m == 4 {
          ok := SkipOpen(depth + 1, 1);
        } else if m == 5 {
          ok := SkipOpen(depth + 1, 2);
        } else {
          ok := false;
        }
        return;
      }
      var headOk, m, value := ReadHead();
      if !headOk {
        return false;
      }
      match m {
        case 0 => ok := true;
        case 1 => ok := true;
        case 7 => ok := true;
        case 2 => ok := SkipBody(value);
        case 3 => ok := SkipBody(value);
        case 4 => ok := SkipMany(depth + 1, value);
        case 5 => ok := SkipMany(depth + 1, 2 * value);
        case _ => ok := SkipDepth(depth + 1);
      }
    }

    method SkipBody(n: u32) returns (ok: bool)
      requires Valid()
      modifies this`pos
      ensures Valid()
      ensures ok == (n <= |data| - old(pos)) && pos == old(pos) + (if ok then n else 0)
    {
      if n > |data| - pos {
        return false;
      }
      pos := pos + n;
      ok := true;
    }

    method SkipChunks(m: major) returns (ok: bool)
      requires Valid()
      modifies this`pos
      ensures Valid() && old(pos) <= pos
      ensures ok == ChunksEnd(data, old(pos), m).Some? && (ok ==> pos == ChunksEnd(data, old(pos), m).value)
    {
      while pos < |data|
        invariant Valid() && old(pos) <= pos
        invariant ChunksEnd(data, old(pos), m) == ChunksEnd(data, pos, m)
        decreases |data| - pos
      {
        if data[pos] == BREAK_BYTE {
          pos := pos + 1;
          return true;
        }
        var headOk, m', n := ReadHead();
        if !headOk || m' != m || !Remaining(n) {
          return false;
        }
        pos := pos + n;
      }
      ok := false;
    }

    /** The loops over the elements of a definite array or map. */
    method SkipMany(depth: nat, n: nat) returns (ok: bool)
      requires Valid()
      modifies this
      ensures Valid() && old(pos) <= pos
      ensures ok == ItemsEnd(data, old(pos), depth, n).Some? && (ok ==> pos == ItemsEnd(data, old(pos), depth, n).value)
      ensures calls - old(calls) <= pos - old(pos) + (if ok then 0 else 1)
      decreases MAX_NEST_DEPTH + 1 - depth, 2
    {
      var i := 0;
      while i < n
        invariant Valid() && 0 <= i <= n && old(pos) <= pos
        invariant ItemsEnd(data, old(pos), depth, n) == ItemsEnd(data, pos, depth, n - i)
        invariant calls - old(calls) <= pos - old(pos)
      {
        ok := SkipDepth(depth);
        if !ok {
          return;
        }
        i := i + 1;
      }
      ok := true;
    }

    /** The loops over the elements of an indefinite array (k == 1) or map (k == 2). */
    method SkipOpen(depth: nat, k: nat) returns (ok: bool)
      requires Valid() && k > 0
      modifies this
      ensures Valid() && old(pos) <= pos
      ensures ok == OpenEnd(data, old(pos), depth, k).Some? && (ok ==> pos == OpenEnd(data, old(pos), depth, k).value)
      ensures calls - old(calls) <= pos - old(pos) + (if ok then 0 else 1)
      decreases MAX_NEST_DEPTH + 1 - depth, 3
    {
      while pos < |data|
        invariant Valid() && old(pos) <= pos
        invariant OpenEnd(data, old(pos), depth, k) == OpenEnd(data, pos, depth, k)
        invariant calls - old(calls) <= pos - old(pos)
        decreases |data| - pos
      {
        if data[pos] == BREAK_BYTE {
          pos := pos + 1;
          return true;
        }
        ok := SkipMany(depth, k);
        if !ok {
          return;
        }
      }
      ok := false;
    }
  }
}
