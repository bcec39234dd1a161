/**
  * What the firmware's reader accepts of RFC 8949 (sections 3.1 and 3.2), and two-byte simple values below 32 besides, given
  * twice: as a syntax tree with a printer, and as the recogniser `End` that the reader implements.
  * The two are proved equal in both directions.
  */
module CborGrammar {
  import opened Bytes

  const MAX_NEST_DEPTH := 32
  const BREAK_BYTE: u8 := 0xFF

  type inline = x: int | 0 <= x < 24
  type major = x: int | 0 <= x < 8

  /** The argument of a head. Non-shortest forms are accepted; the 8-byte form is not. */
  datatype Arg = Inline(v0: inline) | One(v1: u8) | Two(v2: u16) | Four(v4: u32) {
    function Value(): u32 {
      match this
      case Inline(v) => v
      case One(v) => v
      case Two(v) => v
      case Four(v) => v
    }
  }

  datatype Chunk = Chunk(arg: Arg, body: seq<u8>)

  /** Majors: 0 and 1 integers, 2 bytes, 3 text, 4 array, 5 map, 6 tag, 7 simple and float. */
  datatype Item =
    | Scalar(m: major, arg: Arg)
    | Str(m: major, arg: Arg, body: seq<u8>)
    | OpenStr(m: major, chunks: seq<Chunk>)
    | Nest(m: major, arg: Arg, items: Items)
    | OpenNest(m: major, items: Items)
    | Tagged(arg: Arg, item: Item)

  datatype Items = Nil | Cons(head: Item, tail: Items)

  function Count(items: Items): nat {
    match items
    case Nil => 0
    case Cons(_, tail) => 1 + Count(tail)
  }

  predicate WF(it: Item) {
    match it
    case Scalar(m, _) => m == 0 || m == 1 || m == 7
    case Str(m, arg, body) => (m == 2 || m == 3) && arg.Value() == |body|
    case OpenStr(m, chunks) => (m == 2 || m == 3) && forall i :: 0 <= i < |chunks| ==> chunks[i].arg.Value() == |chunks[i].body|
    case Nest(m, arg, items) => (m == 4 || m == 5) && Count(items) == Arity(m) * arg.Value() && WFs(items)
    case OpenNest(m, items) => (m == 4 || m == 5) && Count(items) % Arity(m) == 0 && WFs(items)
    case Tagged(_, item) => WF(item)
  }

  predicate WFs(items: Items) {
    match items
    case Nil => true
    case Cons(head, tail) => WF(head) && WFs(tail)
  }

  /** Items per array element (1) or map entry (2). */
  function Arity(m: major): (k: nat)
    ensures k == 1 || k == 2
  {
    if m == 5 then 2 else 1
  }

  function Height(it: Item): nat {
    match it
    case Nest(_, _, items) => HeightOf(items)
    case OpenNest(_, items) => HeightOf(items)
    case Tagged(_, item) => 1 + Height(item)
    case _ => 0
  }

  function HeightOf(items: Items): nat {
    match items
    case Nil => 0
    case Cons(head, tail) => Max(1 + Height(head), HeightOf(tail))
  }

  // ---- Printer ----

  function PrintHead(m: major, a: Arg): (s: seq<u8>) {
    match a
    case Inline(v) => [32 * m + v]
    case One(v) => [32 * m + 24, v]
    case Two(v) => [32 * m + 25] + Bytes16(v)
    case Four(v) => [32 * m + 26] + Bytes32(v)
  }

  function Print(it: Item): seq<u8> {
    match it
    case Scalar(m, arg) => PrintHead(m, arg)
    case Str(m, arg, body) => PrintHead(m, arg) + body
    case OpenStr(m, chunks) => [32 * m + 31] + (PrintChunks(m, chunks) + [BREAK_BYTE])
    case Nest(m, arg, items) => PrintHead(m, arg) + PrintAll(items)
    case OpenNest(m, items) => [32 * m + 31] + (PrintAll(items) + [BREAK_BYTE])
    case Tagged(arg, item) => PrintHead(6, arg) + Print(item)
  }

  function PrintAll(items: Items): seq<u8> {
    match items
    case Nil => []
    case Cons(head, tail) => Print(head) + PrintAll(tail)
  }

  function PrintChunks(m: major, chunks: seq<Chunk>): seq<u8> {
    if chunks == [] then []
    else PrintHead(m, chunks[0].arg) + (chunks[0].body + PrintChunks(m, chunks[1..]))
  }

  // ---- Recogniser ----

  datatype Head = Head(m: major, arg: Arg, end: nat)

  /** The head at `p`; additional information 27 to 31 is not a head. */
  function HeadAt(d: seq<u8>, p: nat): (h: Option<Head>)
    ensures h.Some? ==> p < h.value.end <= |d|
  {
    if p >= |d| then None
    else
      var m, ai := d[p] / 32, d[p] % 32;
      if ai < 24 then Some(Head(m, Inline(ai), p + 1))
      else if ai == 24 && p + 2 <= |d| then Some(Head(m, One(d[p + 1]), p + 2))
      else if ai == 25 && p + 3 <= |d| then Some(Head(m, Two(Be16(d[p + 1], d[p + 2])), p + 3))
      else if ai == 26 && p + 5 <= |d| then
        Some(Head(m, Four(Be32(d[p + 1], d[p + 2], d[p + 3], d[p + 4])), p + 5))
      else None
  }

  /** Where the item that starts at `p`, met at nesting depth `depth`, ends; None if there is no such item. */
  function End(d: seq<u8>, p: nat, depth: nat): (r: Option<nat>)
    requires p <= |d|
    ensures r.Some? ==> p < r.value <= |d|
    decreases |d| - p, 0
  {
    if depth > MAX_NEST_DEPTH || p == |d| then None
    else if d[p] % 32 == 31 then
      var m := d[p] / 32;
      if m == 2 || m == 3 then ChunksEnd(d, p + 1, m)
      else if m == 4 || m == 5 then OpenEnd(d, p + 1, depth + 1, Arity(m))
      else None
    else match HeadAt(d, p)
      case None => None
      case Some(Head(m, arg, q)) =>
        if m == 0 || m == 1 || m == 7 then Some(q)
        else if m == 2 || m == 3 then
          if arg.Value() <= |d| - q then Some(q + arg.Value()) else None
        else if m == 6 then End(d, q, depth + 1)
        else ItemsEnd(d, q, depth + 1, Arity(m) * arg.Value())
  }

  /** Where `n` consecutive items end. */
  function ItemsEnd(d: seq<u8>, p: nat, depth: nat, n: nat): (r: Option<nat>)
    requires p <= |d|
    ensures r.Some? ==> p <= r.value <= |d| && (n > 0 ==> p < r.value)
    decreases |d| - p, 1
  {
    if n == 0 then Some(p)
    else match End(d, p, depth)
      case None => None
      case Some(q) => ItemsEnd(d, q, depth, n - 1)
  }

  /** Where a break-terminated run of groups of `k` items ends. */
  function OpenEnd(d: seq<u8>, p: nat, depth: nat, k: nat): (r: Option<nat>)
    requires p <= |d| && k > 0
    ensures r.Some? ==> p < r.value <= |d|
    decreases |d| - p, 2
  {
    if p == |d| then None
    else if d[p] == BREAK_BYTE then Some(p + 1)
    else match ItemsEnd(d, p, depth, k)
      case None => None
      case Some(q) => OpenEnd(d, q, depth, k)
  }

  /** Where a break-terminated run of string chunks of major type `m` ends. */
  function ChunksEnd(d: seq<u8>, p: nat, m: major): (r: Option<nat>)
    requires p <= |d|
    ensures r.Some? ==> p < r.value <= |d|
    decreases |d| - p
  {
    if p == |d| then None
    else if d[p] == BREAK_BYTE then Some(p + 1)
    else match HeadAt(d, p)
      case None => None
      case Some(Head(m', arg, q)) =>
        if m' == m && arg.Value() <= |d| - q then ChunksEnd(d, q + arg.Value(), m) else None
  }

  // ---- Printer and recogniser agree ----

  lemma HeadOfPrint(d: seq<u8>, p: nat, m: major, a: Arg)
    requires At(d, p, PrintHead(m, a))
    ensures HeadAt(d, p) == Some(Head(m, a, p + |PrintHead(m, a)|))
    ensures d[p] % 32 != 31
  {
    hide Be16, Be32, Bytes16, Bytes32;
    var s := PrintHead(m, a);
    BytesAt(d, p, s);
    LeadByte(m, s[0] - 32 * m);
    match a
    case Inline(v) =>
    case One(v) =>
    case Two(v) => Be16Inverse(v);
    case Four(v) => Be32Inverse(v);
  }

  lemma LeadByte(m: major, ai: int)
    requires 0 <= ai < 32
    ensures (32 * m + ai) / 32 == m && (32 * m + ai) % 32 == ai
  {
  }

  lemma BytesAt(d: seq<u8>, p: nat, s: seq<u8>)
    requires At(d, p, s)
    ensures p + |s| <= |d|
    ensures forall i {:trigger s[i]} :: 0 <= i < |s| ==> d[p + i] == s[i]
  {
    assert forall i {:trigger s[i]} :: 0 <= i < |s| ==> d[p..p + |s|][i] == s[i];
  }

  lemma PrintOfHead(d: seq<u8>, p: nat)
    requires HeadAt(d, p).Some?
    ensures var Head(m, a, q) := HeadAt(d, p).value; At(d, p, PrintHead(m, a)) && q == p + |PrintHead(m, a)|
  {
    hide Be16, Be32, Bytes16, Bytes32;
    var Head(m, a, q) := HeadAt(d, p).value;
    match a
    case Inline(v) => assert d[p..q] == [d[p]];
    case One(v) => assert d[p..q] == [d[p], d[p + 1]];
    case Two(v) =>
      Bytes16Inverse(d[p + 1], d[p + 2]);
      assert d[p..q] == [d[p]] + [d[p + 1], d[p + 2]];
    case Four(v) =>
      Bytes32Inverse(d[p + 1], d[p + 2], d[p + 3], d[p + 4]);
      assert d[p..q] == [d[p]] + [d[p + 1], d[p + 2], d[p + 3], d[p + 4]];
  }

  /** No well-formed item starts with the break byte. */
  lemma NotBreak(it: Item)
    requires WF(it)
    ensures |Print(it)| > 0 && Print(it)[0] != BREAK_BYTE
  {
  }

  /** The recogniser accepts every printed item and stops exactly at its end. */
  lemma {:induction false} Complete(d: seq<u8>, p: nat, depth: nat, it: Item)
    requires WF(it) && Height(it) + depth <= MAX_NEST_DEPTH
    requires At(d, p, Print(it))
    ensures End(d, p, depth) == Some(p + |Print(it)|)
    decreases it, 0
  {
    hide At, PrintHead, HeadAt, PrintAll, PrintChunks, HeightOf, WFs, Count, ItemsEnd, OpenEnd, ChunksEnd;
    match it
    case Scalar(m, arg) => HeadOfPrint(d, p, m, arg);
    case Str(m, arg, body) =>
      AtConcat(d, p, PrintHead(m, arg), body);
      HeadOfPrint(d, p, m, arg);
      AtFits(d, p + |PrintHead(m, arg)|, body);
    case OpenStr(m, chunks) =>
      SplitOpen(d, p, m, PrintChunks(m, chunks));
      CompleteChunks(d, p + 1, m, chunks);
    case Nest(m, arg, items) =>
      AtConcat(d, p, PrintHead(m, arg), PrintAll(items));
      HeadOfPrint(d, p, m, arg);
      CompleteAll(d, p + |PrintHead(m, arg)|, depth + 1, items);
    case OpenNest(m, items) =>
      SplitOpen(d, p, m, PrintAll(items));
      CompleteOpen(d, p + 1, depth + 1, Arity(m), items);
    case Tagged(arg, item) =>
      AtConcat(d, p, PrintHead(6, arg), Print(item));
      HeadOfPrint(d, p, 6, arg);
      Complete(d, p + |PrintHead(6, arg)|, depth + 1, item);
  }

  lemma FirstByte(d: seq<u8>, p: nat, s: seq<u8>)
    requires At(d, p, s) && |s| > 0
    ensures p < |d| && d[p] == s[0]
  {
    assert d[p..p + |s|][0] == d[p];
  }

  lemma SplitOpen(d: seq<u8>, p: nat, m: major, body: seq<u8>)
    requires At(d, p, [32 * m + 31] + (body + [BREAK_BYTE]))
    ensures p < |d| && d[p] == 32 * m + 31
    ensures At(d, p + 1, body) && p + 1 + |body| < |d| && d[p + 1 + |body|] == BREAK_BYTE
  {
    hide At;
    AtConcat(d, p, [32 * m + 31], body + [BREAK_BYTE]);
    AtConcat(d, p + 1, body, [BREAK_BYTE]);
    AtByte(d, p, 32 * m + 31);
    AtByte(d, p + 1 + |body|, BREAK_BYTE);
  }

  lemma {:induction false} CompleteAll(d: seq<u8>, p: nat, depth: nat, items: Items)
    requires WFs(items) && HeightOf(items) + depth <= MAX_NEST_DEPTH + 1
    requires At(d, p, PrintAll(items))
    ensures ItemsEnd(d, p, depth, Count(items)) == Some(p + |PrintAll(items)|)
    decreases items, 0
  {
    hide At, PrintHead, HeadAt;
    match items
    case Nil =>
    case Cons(head, tail) =>
      AtConcat(d, p, Print(head), PrintAll(tail));
      Complete(d, p, depth, head);
      CompleteAll(d, p + |Print(head)|, depth, tail);
  }

  lemma {:induction false} CompleteOpen(d: seq<u8>, p: nat, depth: nat, k: nat, items: Items)
    requires WFs(items) && HeightOf(items) + depth <= MAX_NEST_DEPTH + 1
    requires (k == 1 || k == 2) && Count(items) % k == 0
    requires At(d, p, PrintAll(items))
    requires p + |PrintAll(items)| < |d| && d[p + |PrintAll(items)|] == BREAK_BYTE
    ensures OpenEnd(d, p, depth, k) == Some(p + |PrintAll(items)| + 1)
    decreases items, 1
  {
    hide At, PrintHead, HeadAt, Print, Height, WF, End;
    match items
    case Nil =>
    case Cons(head, tail) =>
      NotBreak(head);
      AtConcat(d, p, Print(head), PrintAll(tail));
      FirstByte(d, p, Print(head));
      Complete(d, p, depth, head);
      var q := p + |Print(head)|;
      assert ItemsEnd(d, p, depth, k) == ItemsEnd(d, q, depth, k - 1);
      if k == 1 {
        assert ItemsEnd(d, q, depth, 0) == Some(q);
        CompleteOpen(d, q, depth, k, tail);
      } else {
        var Cons(second, rest) := tail;
        AtConcat(d, q, Print(second), PrintAll(rest));
        Complete(d, q, depth, second);
        var r := q + |Print(second)|;
        assert ItemsEnd(d, q, depth, 1) == ItemsEnd(d, r, depth, 0) == Some(r);
        CompleteOpen(d, r, depth, k, rest);
      }
  }

  lemma {:induction false} CompleteChunks(d: seq<u8>, p: nat, m: major, chunks: seq<Chunk>)
    requires m == 2 || m == 3
    requires forall i :: 0 <= i < |chunks| ==> chunks[i].arg.Value() == |chunks[i].body|
    requires At(d, p, PrintChunks(m, chunks))
    requires p + |PrintChunks(m, chunks)| < |d| && d[p + |PrintChunks(m, chunks)|] == BREAK_BYTE
    ensures ChunksEnd(d, p, m) == Some(p + |PrintChunks(m, chunks)| + 1)
    decreases |chunks|
  {
    hide At, PrintHead, HeadAt;
    if chunks != [] {
      var c := chunks[0];
      var q := p + |PrintHead(m, c.arg)|;
      AtConcat(d, p, PrintHead(m, c.arg), c.body + PrintChunks(m, chunks[1..]));
      AtConcat(d, q, c.body, PrintChunks(m, chunks[1..]));
      HeadOfPrint(d, p, m, c.arg);
      CompleteChunks(d, q + |c.body|, m, chunks[1..]);
    }
  }

  /** Everything the recogniser accepts is the print of a well-formed item within the depth limit. */
  lemma {:induction false} Sound(d: seq<u8>, p: nat, depth: nat) returns (it: Item)
    requires p <= |d| && End(d, p, depth).Some?
    ensures WF(it) && Height(it) + depth <= MAX_NEST_DEPTH
    ensures At(d, p, Print(it)) && p + |Print(it)| == End(d, p, depth).value
    decreases |d| - p, 0
  {
    hide At, PrintHead, HeadAt, PrintAll, PrintChunks, HeightOf, WFs, Count, ItemsEnd, OpenEnd, ChunksEnd;
    var e := End(d, p, depth).value;
    if d[p] % 32 == 31 {
      var m: major := d[p] / 32;
      if m == 2 || m == 3 {
        var chunks := SoundChunks(d, p + 1, m);
        it := OpenStr(m, chunks);
        JoinOpen(d, p, m, PrintChunks(m, chunks));
      } else {
        var items := SoundOpen(d, p + 1, depth + 1, Arity(m));
        it := OpenNest(m, items);
        JoinOpen(d, p, m, PrintAll(items));
      }
    } else {
      PrintOfHead(d, p);
      var Head(m, arg, q) := HeadAt(d, p).value;
      if m == 0 || m == 1 || m == 7 {
        it := Scalar(m, arg);
      } else if m == 2 || m == 3 {
        it := Str(m, arg, d[q..q + arg.Value()]);
        AtSlice(d, q, q + arg.Value());
        AtConcat(d, p, PrintHead(m, arg), d[q..q + arg.Value()]);
      } else if m == 6 {
        var inner := Sound(d, q, depth + 1);
        it := Tagged(arg, inner);
        AtConcat(d, p, PrintHead(m, arg), Print(inner));
      } else {
        var items := SoundAll(d, q, depth + 1, Arity(m) * arg.Value());
        it := Nest(m, arg, items);
        AtConcat(d, p, PrintHead(m, arg), PrintAll(items));
      }
    }
  }

  lemma JoinOpen(d: seq<u8>, p: nat, m: major, body: seq<u8>)
    requires p < |d| && d[p] == 32 * m + 31
    requires At(d, p + 1, body) && p + 1 + |body| < |d| && d[p + 1 + |body|] == BREAK_BYTE
    ensures At(d, p, [32 * m + 31] + (body + [BREAK_BYTE]))
  {
    hide At;
    AtConcat(d, p, [32 * m + 31], body + [BREAK_BYTE]);
    AtConcat(d, p + 1, body, [BREAK_BYTE]);
    AtByte(d, p, 32 * m + 31);
    AtByte(d, p + 1 + |body|, BREAK_BYTE);
  }

  lemma {:induction false} SoundAll(d: seq<u8>, p: nat, depth: nat, n: nat) returns (items: Items)
    requires p <= |d| && ItemsEnd(d, p, depth, n).Some?
    ensures WFs(items) && Count(items) == n
    ensures HeightOf(items) == 0 || HeightOf(items) + depth <= MAX_NEST_DEPTH + 1
    ensures At(d, p, PrintAll(items)) && p + |PrintAll(items)| == ItemsEnd(d, p, depth, n).value
    decreases |d| - p, 1
  {
    hide At, PrintHead, HeadAt;
    if n == 0 {
      items := Nil;
      AtSlice(d, p, p);
    } else {
      var head := Sound(d, p, depth);
      var tail := SoundAll(d, p + |Print(head)|, depth, n - 1);
      items := Cons(head, tail);
      AtConcat(d, p, Print(head), PrintAll(tail));
    }
  }

  lemma NilFacts(d: seq<u8>, p: nat)
    requires p <= |d|
    ensures WFs(Nil) && HeightOf(Nil) == 0 && PrintAll(Nil) == [] && At(d, p, PrintAll(Nil))
  {
  }

  lemma {:induction false} SoundOpen(d: seq<u8>, p: nat, depth: nat, k: nat) returns (items: Items)
    requires p <= |d| && (k == 1 || k == 2) && OpenEnd(d, p, depth, k).Some?
    ensures WFs(items) && Count(items) % k == 0
    ensures HeightOf(items) == 0 || HeightOf(items) + depth <= MAX_NEST_DEPTH + 1
    ensures var e := OpenEnd(d, p, depth, k).value;
            At(d, p, PrintAll(items)) && p + |PrintAll(items)| == e - 1 && d[e - 1] == BREAK_BYTE
    decreases |d| - p, 2
  {
    hide At, PrintHead, HeadAt, Print, Height, WF, End, PrintAll, WFs, HeightOf;
    if d[p] == BREAK_BYTE {
      items := Nil;
      NilFacts(d, p);
    } else {
      var group := SoundAll(d, p, depth, k);
      var q := p + |PrintAll(group)|;
      var rest := SoundOpen(d, q, depth, k);
      items := Append(group, rest);
      AppendPrints(group, rest);
      AtConcat(d, p, PrintAll(group), PrintAll(rest));
    }
  }

  lemma {:induction false} SoundChunks(d: seq<u8>, p: nat, m: major) returns (chunks: seq<Chunk>)
    requires p <= |d| && ChunksEnd(d, p, m).Some?
    ensures forall i :: 0 <= i < |chunks| ==> chunks[i].arg.Value() == |chunks[i].body|
    ensures var e := ChunksEnd(d, p, m).value;
            At(d, p, PrintChunks(m, chunks)) && p + |PrintChunks(m, chunks)| == e - 1 && d[e - 1] == BREAK_BYTE
    decreases |d| - p
  {
    hide At, PrintHead, HeadAt;
    if d[p] == BREAK_BYTE {
      chunks := [];
      AtSlice(d, p, p);
    } else {
      PrintOfHead(d, p);
      var Head(_, arg, q) := HeadAt(d, p).value;
      var c := Chunk(arg, d[q..q + arg.Value()]);
      AtSlice(d, q, q + arg.Value());
      var rest := SoundChunks(d, q + arg.Value(), m);
      chunks := [c] + rest;
      assert chunks[1..] == rest;
      AtConcat(d, q, c.body, PrintChunks(m, rest));
      AtConcat(d, p, PrintHead(m, arg), c.body + PrintChunks(m, rest));
    }
  }

  function Append(a: Items, b: Items): Items {
    match a
    case Nil => b
    case Cons(head, tail) => Cons(head, Append(tail, b))
  }

  lemma {:induction false} AppendPrints(a: Items, b: Items)
    ensures PrintAll(Append(a, b)) == PrintAll(a) + PrintAll(b)
    ensures Count(Append(a, b)) == Count(a) + Count(b)
    ensures WFs(Append(a, b)) <==> WFs(a) && WFs(b)
    ensures HeightOf(Append(a, b)) == Max(HeightOf(a), HeightOf(b))
  {
    hide Print, WF, Height;
    match a
    case Nil =>
    case Cons(head, tail) =>
      AppendPrints(tail, b);
      assert Print(head) + (PrintAll(tail) + PrintAll(b)) == PrintAll(a) + PrintAll(b);
  }

  /** The recogniser accepts exactly the prints of well-formed items of nesting height at most the limit. */
  lemma SkipExactlyItems(d: seq<u8>, p: nat, q: nat)
    requires p <= |d|
    ensures End(d, p, 0) == Some(q) <==>
            exists it :: WF(it) && Height(it) <= 32 && At(d, p, Print(it)) && q == p + |Print(it)|
  {
    if End(d, p, 0) == Some(q) {
      var it := Sound(d, p, 0);
    }
    forall it | WF(it) && Height(it) <= 32 && At(d, p, Print(it)) && q == p + |Print(it)|
      ensures End(d, p, 0) == Some(q)
    {
      Complete(d, p, 0, it);
    }
  }

  /** Skipping a printed item leaves precisely what follows it, so no print is a proper prefix of another. */
  lemma SkipLeavesTheRest(it: Item, rest: seq<u8>)
    requires WF(it) && Height(it) <= 32
    ensures var d := Print(it) + rest; End(d, 0, 0).Some? && d[End(d, 0, 0).value..] == rest
  {
    Complete(Print(it) + rest, 0, 0, it);
  }
}
