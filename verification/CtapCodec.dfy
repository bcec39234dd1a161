/** The CTAP encoders: a getAssertion request in CBOR, and the NFCCTAP_MSG APDU around a CBOR payload. */
module CtapCodec {
  import opened Bytes
  import opened Apdu
  import opened CborGrammar

  const RP_ID_MAX := 253
  const HASH_LEN := 32
  const DESCRIPTOR_ROOM := 50
  const P1_GETRESPONSE: u8 := 0x80
  const SHORT_LC_MAX := 255

  const MAP_NO_ALLOW: u8 := 0xA3
  const MAP_WITH_ALLOW: u8 := 0xA4
  const TYPE_KEY: seq<u8> := [0x64, 0x74, 0x79, 0x70, 0x65]
  const PUBLIC_KEY: seq<u8> := [0x6A, 0x70, 0x75, 0x62, 0x6C, 0x69, 0x63, 0x2D, 0x6B, 0x65, 0x79]
  const OPTIONS: seq<u8> := [0x62, 0x75, 0x70, 0xF5, 0x62, 0x75, 0x76, 0xF4]

  // ---- The request ----

  function TextHead(n: u8): seq<u8> { if n <= 23 then [0x60 + n] else [0x78, n] }

  function BytesHead(n: u16): seq<u8> {
    if n <= 23 then [0x40 + n] else if n <= 255 then [0x58, n] else [0x59] + Bytes16(n)
  }

  function Descriptor(cred: Span): seq<u8> { [0xA2] + TYPE_KEY + PUBLIC_KEY + BytesHead(|cred|) + cred }

  /** The part of the request that both forms share, up to the client data hash, after the map's head. */
  function RpAndHash(rp: seq<u8>, hash: seq<u8>): seq<u8>
    requires |rp| <= RP_ID_MAX
  {
    [0x01] + TextHead(|rp|) + rp + [0x02, 0x58, HASH_LEN] + hash
  }

  function AllowList(cred: Span): seq<u8> { if cred == [] then [] else [0x03, 0x81] + Descriptor(cred) }

  function Request(rp: seq<u8>, hash: seq<u8>, cred: Span): seq<u8>
    requires |rp| <= RP_ID_MAX
  {
    [if cred == [] then MAP_NO_ALLOW else MAP_WITH_ALLOW] + RpAndHash(rp, hash) + AllowList(cred) + [0x05, 0xA2] + OPTIONS
  }

  /** The length computed before anything is written. */
  function Required(rp: seq<u8>, cred: Span): nat {
    1 + 1 + (if |rp| <= 23 then 1 else 2) + |rp| + 3 + HASH_LEN + 2 + 8
    + (if cred == [] then 0 else 2 + 20 + |BytesHead(|cred|)| + |cred|)
  }

  /** The room asked for in front of the credential descriptor. */
  function DescriptorEnd(rp: seq<u8>, cred: Span): nat {
    Required(rp, []) - 10 + 2 + DESCRIPTOR_ROOM + |BytesHead(|cred|)| + |cred|
  }

  predicate Encodable(rp: seq<u8>, cred: Span, cap: nat) {
    1 <= |rp| <= RP_ID_MAX && Required(rp, cred) <= cap && (cred != [] ==> DescriptorEnd(rp, cred) <= cap)
  }

  method EncodeGetAssertion(hash: seq<u8>, rp: seq<u8>, cred: Span, out: array<u8>) returns (ok: bool, outLen: nat)
    requires |hash| == HASH_LEN && out.Length <= 0xFFFF
    modifies out
    ensures ok <==> Encodable(rp, cred, out.Length)
    ensures if ok then outLen == |Request(rp, hash, cred)| && out[..outLen] == Request(rp, hash, cred) else outLen == 0
  {
    hide Descriptor, BytesHead, RpAndHash, Required, AllowList;
    outLen := 0;
    if |rp| == 0 || |rp| > RP_ID_MAX {
      return false, outLen;
    }
    if Required(rp, cred) > out.Length {
      return false, outLen;
    }
    RequestLength(rp, hash, cred);
    var p := Put(out, 0, [if cred == [] then MAP_NO_ALLOW else MAP_WITH_ALLOW]);
    p := PutRpAndHash(out, p, rp, hash);
    ok, p := PutAllowList(out, p, cred);
    if !ok {
      return false, outLen;
    }
    p := Put(out, p, [0x05, 0xA2]);
    p := Put(out, p, OPTIONS);
    return true, p;
  }

  /** The descriptor is only written where there is room for fifty bytes more than its credential and head. */
  method PutAllowList(out: array<u8>, p: nat, cred: Span) returns (ok: bool, next: nat)
    requires p + |AllowList(cred)| <= out.Length
    modifies out
    ensures ok <==> cred == [] || p + 2 + DESCRIPTOR_ROOM + |BytesHead(|cred|)| + |cred| <= out.Length
    ensures ok ==> next == p + |AllowList(cred)| && out[..next] == old(out[..p]) + AllowList(cred)
  {
    hide Descriptor, BytesHead;
    ok, next := true, p;
    assert cred != [] ==> |AllowList(cred)| == 2 + |Descriptor(cred)|;
    if cred != [] {
      next := Put(out, next, [0x03, 0x81]);
      if next + DESCRIPTOR_ROOM + |BytesHead(|cred|)| + |cred| > out.Length {
        return false, next;
      }
      next := Put(out, next, Descriptor(cred));
    }
  }

  method PutRpAndHash(out: array<u8>, p: nat, rp: seq<u8>, hash: seq<u8>) returns (next: nat)
    requires |rp| <= RP_ID_MAX && p + |RpAndHash(rp, hash)| <= out.Length
    modifies out
    ensures next == p + |RpAndHash(rp, hash)| && out[..next] == old(out[..p]) + RpAndHash(rp, hash)
  {
    hide TextHead;
    next := Put(out, p, [0x01]);
    next := Put(out, next, TextHead(|rp|));
    next := Put(out, next, rp);
    next := Put(out, next, [0x02, 0x58, HASH_LEN]);
    next := Put(out, next, hash);
  }

  /** The length precomputed is the length written in the form without an allow list; with one, it is three bytes more. */
  lemma RequestLength(rp: seq<u8>, hash: seq<u8>, cred: Span)
    requires |rp| <= RP_ID_MAX && |hash| == HASH_LEN
    ensures |Request(rp, hash, cred)| == Required(rp, cred) - (if cred == [] then 0 else 3)
    ensures 1 + |RpAndHash(rp, hash)| == Required(rp, []) - 10
    ensures |Descriptor(cred)| == 17 + |BytesHead(|cred|)| + |cred|
  {
  }

  /** A request is written if the RP ID and the buffer are in bounds; with an allow list it takes 23 bytes more than it has. */
  lemma EncodableExactlyWhen(rp: seq<u8>, hash: seq<u8>, cred: Span, cap: nat)
    requires |hash| == HASH_LEN
    ensures Encodable(rp, cred, cap)
            <==> 1 <= |rp| <= 253 && |Request(rp, hash, cred)| + (if cred == [] then 0 else 23) <= cap
  {
    hide Request, Required, Descriptor, BytesHead;
    if |rp| <= RP_ID_MAX {
      RequestLength(rp, hash, cred);
      RequestLength(rp, hash, []);
      RequiredGrows(rp, cred);
    }
  }

  lemma RequiredGrows(rp: seq<u8>, cred: Span)
    ensures Required(rp, cred) == Required(rp, []) + if cred == [] then 0 else 22 + |BytesHead(|cred|)| + |cred|
  {
  }

  /** The keys of the request and of its descriptor, as text. */
  lemma KeysSpell()
    ensures TYPE_KEY[1..] == [0x74, 0x79, 0x70, 0x65]
    ensures PUBLIC_KEY[1..] == [0x70, 0x75, 0x62, 0x6C, 0x69, 0x63, 0x2D, 0x6B, 0x65, 0x79]
    ensures OPTIONS == [0x62] + [0x75, 0x70] + [0xF5, 0x62] + [0x75, 0x76] + [0xF4]
  {
  }

  // ---- What a CBOR reader makes of the request ----

  function LenArg(n: u16): Arg { if n <= 23 then Inline(n) else if n <= 255 then One(n) else Two(n) }

  function Text(s: seq<u8>): Item
    requires |s| <= 0xFFFF
  {
    Str(3, LenArg(|s|), s)
  }

  function Blob(s: seq<u8>): Item
    requires |s| <= 0xFFFF
  {
    Str(2, LenArg(|s|), s)
  }

  function Uint(v: inline): Item { Scalar(0, Inline(v)) }

  /** The options map: "up" is true, "uv" is false. */
  const OPTIONS_ITEM := Nest(5, Inline(2),
    Cons(Str(3, Inline(2), [0x75, 0x70]), Cons(Scalar(7, Inline(21)),
    Cons(Str(3, Inline(2), [0x75, 0x76]), Cons(Scalar(7, Inline(20)), Nil)))))

  function RpAndHashItems(rp: seq<u8>, hash: seq<u8>, tail: Items): Items
    requires |rp| <= RP_ID_MAX && |hash| == HASH_LEN
  {
    Cons(Uint(1), Cons(Text(rp), Cons(Uint(2), Cons(Blob(hash), tail))))
  }

  /** What an item in front adds to a list. */
  lemma ConsFacts(it: Item, tail: Items)
    requires WF(it) && WFs(tail)
    ensures var l := Cons(it, tail);
            && WFs(l) && Count(l) == 1 + Count(tail) && HeightOf(l) == Max(1 + Height(it), HeightOf(tail))
            && PrintAll(l) == Print(it) + PrintAll(tail)
  {
    hide WF, Height, Print, Max;
  }

  lemma ArrayFacts(v: inline, items: Items)
    requires WFs(items) && Count(items) == v
    ensures var it := Nest(4, Inline(v), items);
            WF(it) && Height(it) == HeightOf(items) && Print(it) == [0x80 + v] + PrintAll(items)
  {
    hide Count, WFs, HeightOf, PrintAll;
  }

  lemma MapFacts(v: inline, items: Items)
    requires WFs(items) && Count(items) == 2 * v
    ensures var it := Nest(5, Inline(v), items);
            WF(it) && Height(it) == HeightOf(items) && Print(it) == [0xA0 + v] + PrintAll(items)
  {
    hide Count, WFs, HeightOf, PrintAll;
  }

  lemma TextPrint(s: seq<u8>)
    requires |s| <= 0xFF
    ensures WF(Text(s)) && Height(Text(s)) == 0 && Print(Text(s)) == TextHead(|s|) + s
  {
  }

  lemma BlobPrint(s: seq<u8>)
    requires |s| <= 0xFFFF
    ensures WF(Blob(s)) && Height(Blob(s)) == 0 && Print(Blob(s)) == BytesHead(|s|) + s
  {
  }

  lemma OptionsPrint()
    ensures WF(OPTIONS_ITEM) && Height(OPTIONS_ITEM) == 1 && Print(OPTIONS_ITEM) == [0xA2] + OPTIONS
  {
    var up, uv := Str(3, Inline(2), [0x75, 0x70]), Str(3, Inline(2), [0x75, 0x76]);
    var yes, no := Scalar(7, Inline(21)), Scalar(7, Inline(20));
    assert Print(up) == [0x62, 0x75, 0x70] && Print(uv) == [0x62, 0x75, 0x76] && Print(yes) == [0xF5] && Print(no) == [0xF4];
    assert PrintAll(Cons(no, Nil)) == [0xF4];
    assert PrintAll(Cons(uv, Cons(no, Nil))) == [0x62, 0x75, 0x76, 0xF4];
    assert PrintAll(Cons(yes, Cons(uv, Cons(no, Nil)))) == [0xF5, 0x62, 0x75, 0x76, 0xF4];
    assert PrintAll(Cons(up, Cons(yes, Cons(uv, Cons(no, Nil))))) == OPTIONS;
    assert HeightOf(Cons(no, Nil)) == 1 && HeightOf(Cons(uv, Cons(no, Nil))) == 1;
    assert HeightOf(Cons(yes, Cons(uv, Cons(no, Nil)))) == 1;
    assert Count(Cons(no, Nil)) == 1 && Count(Cons(uv, Cons(no, Nil))) == 2 && Count(Cons(yes, Cons(uv, Cons(no, Nil)))) == 3;
    assert WFs(Cons(no, Nil)) && WFs(Cons(uv, Cons(no, Nil))) && WFs(Cons(yes, Cons(uv, Cons(no, Nil))));
  }

  /** The four items in front: what they print as, and what they add. */
  lemma RpAndHashPrint(rp: seq<u8>, hash: seq<u8>, tail: Items)
    requires |rp| <= RP_ID_MAX && |hash| == HASH_LEN && WFs(tail)
    ensures var items := RpAndHashItems(rp, hash, tail);
            && WFs(items) && Count(items) == 4 + Count(tail) && HeightOf(items) == Max(1, HeightOf(tail))
            && PrintAll(items) == RpAndHash(rp, hash) + PrintAll(tail)
  {
    hide Text, Blob, TextHead, Uint, WF, WFs, Count, Height, HeightOf, Print, PrintAll;
    TextPrint(rp);
    BlobPrint(hash);
    UintPrint(1);
    UintPrint(2);
    var last := Cons(Blob(hash), tail);
    var third := Cons(Uint(2), last);
    var second := Cons(Text(rp), third);
    ConsFacts(Blob(hash), tail);
    ConsFacts(Uint(2), last);
    ConsFacts(Text(rp), third);
    ConsFacts(Uint(1), second);
    assert BytesHead(HASH_LEN) == [0x58, HASH_LEN];
    assert [0x02] + ([0x58, HASH_LEN] + hash + PrintAll(tail)) == [0x02, 0x58, HASH_LEN] + hash + PrintAll(tail);
    assert PrintAll(second) == TextHead(|rp|) + rp + ([0x02, 0x58, HASH_LEN] + hash + PrintAll(tail));
  }

  lemma UintPrint(v: inline)
    ensures WF(Uint(v)) && Height(Uint(v)) == 0 && Print(Uint(v)) == [v]
  {
  }

  function NoAllowItem(rp: seq<u8>, hash: seq<u8>): Item
    requires |rp| <= RP_ID_MAX && |hash| == HASH_LEN
  {
    Nest(5, Inline(3), RpAndHashItems(rp, hash, Cons(Uint(5), Cons(OPTIONS_ITEM, Nil))))
  }

  lemma OptionsEntry()
    ensures var tail := Cons(Uint(5), Cons(OPTIONS_ITEM, Nil));
            WFs(tail) && Count(tail) == 2 && HeightOf(tail) == 2 && PrintAll(tail) == [0x05, 0xA2] + OPTIONS
  {
    hide Uint, Print, Height, WF;
    OptionsPrint();
    UintPrint(5);
    var last := Cons(OPTIONS_ITEM, Nil);
    assert Count(last) == 1 && HeightOf(last) == 2 && WFs(last) && PrintAll(last) == [0xA2] + OPTIONS;
  }

  /** The request without an allow list is one map of three entries, printed. */
  lemma NoAllowIsOneMap(rp: seq<u8>, hash: seq<u8>)
    requires |rp| <= RP_ID_MAX && |hash| == HASH_LEN
    ensures var it := NoAllowItem(rp, hash); WF(it) && Height(it) == 2 && Print(it) == Request(rp, hash, [])
  {
    hide RpAndHash, RpAndHashItems, Uint, WF, WFs, Count, Height, HeightOf, Print, PrintAll;
    OptionsEntry();
    var tail := Cons(Uint(5), Cons(OPTIONS_ITEM, Nil));
    RpAndHashPrint(rp, hash, tail);
    MapFacts(3, RpAndHashItems(rp, hash, tail));
    AppendNothing([MAP_NO_ALLOW] + RpAndHash(rp, hash));
  }

  /** What stands behind the hash in the other form: a list whose descriptor takes the options' key for its missing value. */
  function AllowItems(cred: Span): Items {
    var descriptor := Nest(5, Inline(2),
      Cons(Str(3, Inline(4), TYPE_KEY[1..]), Cons(Str(3, Inline(10), PUBLIC_KEY[1..]), Cons(Blob(cred), Cons(Uint(5), Nil)))));
    Cons(Uint(3), Cons(Nest(4, Inline(1), Cons(descriptor, Nil)), Cons(OPTIONS_ITEM, Nil)))
  }

  lemma DescriptorPrint(cred: Span)
    ensures var items := Cons(Str(3, Inline(4), TYPE_KEY[1..]), Cons(Str(3, Inline(10), PUBLIC_KEY[1..]),
                           Cons(Blob(cred), Cons(Uint(5), Nil))));
            && WFs(items) && Count(items) == 4 && HeightOf(items) == 1
            && [0xA2] + PrintAll(items) == Descriptor(cred) + [0x05]
  {
    hide Blob, BytesHead, Uint, WF, WFs, Count, Height, HeightOf, Print, PrintAll;
    BlobPrint(cred);
    UintPrint(5);
    KeysPrint();
    var kind, key := Str(3, Inline(4), TYPE_KEY[1..]), Str(3, Inline(10), PUBLIC_KEY[1..]);
    var last := Cons(Uint(5), Nil);
    var third := Cons(Blob(cred), last);
    var second := Cons(key, third);
    ConsFacts(Uint(5), Nil);
    ConsFacts(Blob(cred), last);
    ConsFacts(key, third);
    ConsFacts(kind, second);
    assert PrintAll(third) == BytesHead(|cred|) + cred + [0x05];
    assert PrintAll(Cons(kind, second)) == TYPE_KEY + (PUBLIC_KEY + (BytesHead(|cred|) + cred + [0x05]));
  }

  lemma KeysPrint()
    ensures var kind, key := Str(3, Inline(4), TYPE_KEY[1..]), Str(3, Inline(10), PUBLIC_KEY[1..]);
            && WF(kind) && Height(kind) == 0 && Print(kind) == TYPE_KEY
            && WF(key) && Height(key) == 0 && Print(key) == PUBLIC_KEY
    ensures WFs(Nil) && Count(Nil) == 0 && HeightOf(Nil) == 0 && PrintAll(Nil) == []
  {
  }

  lemma AllowItemsPrint(cred: Span)
    ensures var items := AllowItems(cred);
            && WFs(items) && Count(items) == 3 && HeightOf(items) <= 3
            && PrintAll(items) == [0x03, 0x81] + Descriptor(cred) + [0x05, 0xA2] + OPTIONS
  {
    hide Blob, Uint, Descriptor, WF, WFs, Count, Height, HeightOf, Print, PrintAll;
    OptionsPrint();
    UintPrint(3);
    KeysPrint();
    DescriptorPrint(cred);
    var inner := Cons(Str(3, Inline(4), TYPE_KEY[1..]), Cons(Str(3, Inline(10), PUBLIC_KEY[1..]),
                   Cons(Blob(cred), Cons(Uint(5), Nil))));
    var descriptor := Nest(5, Inline(2), inner);
    MapFacts(2, inner);
    ConsFacts(descriptor, Nil);
    var list := Nest(4, Inline(1), Cons(descriptor, Nil));
    ArrayFacts(1, Cons(descriptor, Nil));
    var last := Cons(OPTIONS_ITEM, Nil);
    ConsFacts(OPTIONS_ITEM, Nil);
    ConsFacts(list, last);
    ConsFacts(Uint(3), Cons(list, last));
    AppendNothing(Print(descriptor));
    AppendNothing(Print(OPTIONS_ITEM));
    JoinAllowList(Descriptor(cred), OPTIONS);
  }

  lemma AppendNothing(s: seq<u8>)
    ensures s + [] == s
  {
  }

  lemma JoinAllowList(descriptor: seq<u8>, options: seq<u8>)
    ensures [0x03] + (([0x81] + (descriptor + [0x05])) + ([0xA2] + options))
            == [0x03, 0x81] + descriptor + [0x05, 0xA2] + options
  {
  }

  /** Printed items in front of a run of items are passed one by one. */
  lemma {:induction false} ItemsPassed(d: seq<u8>, p: nat, depth: nat, items: Items, n: nat)
    requires WFs(items) && HeightOf(items) + depth <= MAX_NEST_DEPTH + 1 && Count(items) <= n
    requires At(d, p, PrintAll(items))
    ensures ItemsEnd(d, p, depth, n) == ItemsEnd(d, p + |PrintAll(items)|, depth, n - Count(items))
    decreases items
  {
    hide At, End, Print, Height, WF;
    match items
    case Nil =>
    case Cons(head, tail) =>
      AtConcat(d, p, Print(head), PrintAll(tail));
      Complete(d, p, depth, head);
      ItemsPassed(d, p + |Print(head)|, depth, tail, n - 1);
  }

  /**
    * For every RP ID, hash and credential: a reader that skips one item consumes the request exactly if there is no
    * allow list; with one, the descriptor lacks its "id" key and the request is no well-formed item at all.
    */
  lemma RequestIsOneItemExactlyWithoutAllowList(rp: seq<u8>, hash: seq<u8>, cred: Span)
    requires |rp| <= RP_ID_MAX && |hash| == HASH_LEN
    ensures End(Request(rp, hash, cred), 0, 0) == if cred == [] then Some(|Request(rp, hash, cred)|) else None
  {
    var d := Request(rp, hash, cred);
    if cred == [] {
      NoAllowIsOneMap(rp, hash);
      SkipLeavesTheRest(NoAllowItem(rp, hash), []);
      assert d + [] == d;
    } else {
      AllowRequestRunsOut(rp, hash, cred);
    }
  }

  lemma AllowRequestRunsOut(rp: seq<u8>, hash: seq<u8>, cred: Span)
    requires |rp| <= RP_ID_MAX && |hash| == HASH_LEN && cred != []
    ensures End(Request(rp, hash, cred), 0, 0) == None
  {
    hide RpAndHash, RpAndHashItems, AllowItems, End, ItemsEnd, PrintAll, WFs, Count, HeightOf, Descriptor, At;
    var d := Request(rp, hash, cred);
    var items := RpAndHashItems(rp, hash, AllowItems(cred));
    AllowItemsPrint(cred);
    RpAndHashPrint(rp, hash, AllowItems(cred));
    JoinRequest([MAP_WITH_ALLOW], RpAndHash(rp, hash), Descriptor(cred), OPTIONS);
    BehindOneByte(MAP_WITH_ALLOW, PrintAll(items));
    MapOfFour(d);
    ItemsPassed(d, 1, 1, items, 8);
    RunOut(d, 1, 1);
  }

  lemma JoinRequest(first: seq<u8>, params: seq<u8>, descriptor: seq<u8>, options: seq<u8>)
    ensures first + params + ([0x03, 0x81] + descriptor) + [0x05, 0xA2] + options
            == first + (params + ([0x03, 0x81] + descriptor + [0x05, 0xA2] + options))
  {
  }

  lemma BehindOneByte(b: u8, s: seq<u8>)
    ensures At([b] + s, 1, s)
  {
  }

  lemma MapOfFour(d: seq<u8>)
    requires d != [] && d[0] == MAP_WITH_ALLOW
    ensures End(d, 0, 0) == ItemsEnd(d, 1, 1, 8)
  {
    hide ItemsEnd;
    assert HeadAt(d, 0) == Some(Head(5, Inline(4), 1));
  }

  lemma RunOut(d: seq<u8>, depth: nat, n: nat)
    requires n > 0
    ensures ItemsEnd(d, |d|, depth, n) == None
  {
  }

  // ---- The APDU around a CBOR payload ----

  function ShortMsg(cmd: u8, cbor: seq<u8>): seq<u8>
    requires |cbor| + 1 <= SHORT_LC_MAX
  {
    [CLA_CTAP, INS_CTAP_MSG, P1_GETRESPONSE, 0x00, |cbor| + 1, cmd] + cbor + [0x00]
  }

  function ExtendedMsg(cmd: u8, cbor: seq<u8>): seq<u8>
    requires |cbor| <= 0xFFFE
  {
    [CLA_CTAP, INS_CTAP_MSG, P1_GETRESPONSE, 0x00, 0x00] + Bytes16(|cbor| + 1) + [cmd] + cbor + [0x00, 0x00]
  }

  function Msg(cmd: u8, cbor: seq<u8>, forceExtended: bool): seq<u8>
    requires |cbor| <= 0xFFFE
  {
    if !forceExtended && |cbor| + 1 <= SHORT_LC_MAX then ShortMsg(cmd, cbor) else ExtendedMsg(cmd, cbor)
  }

  lemma MsgIs(cmd: u8, cbor: seq<u8>, forceExtended: bool)
    requires |cbor| <= 0xFFFE
    ensures var short, n := !forceExtended && |cbor| + 1 <= SHORT_LC_MAX, |cbor| + 1;
            && |Msg(cmd, cbor, forceExtended)| == n + (if short then 6 else 9)
            && Msg(cmd, cbor, forceExtended)
               == if short then [] + [CLA_CTAP, INS_CTAP_MSG, P1_GETRESPONSE, 0x00, n, cmd] + cbor + [0x00]
                  else [] + ([CLA_CTAP, INS_CTAP_MSG, P1_GETRESPONSE, 0x00, 0x00] + Bytes16(n) + [cmd]) + cbor + [0x00, 0x00]
  {
  }

  method PackCborApdu(cmd: u8, cbor: seq<u8>, forceExtended: bool, apdu: array<u8>) returns (ok: bool, apduLen: nat)
    requires |cbor| <= 0xFFFF && apdu.Length <= 0xFFFF
    modifies apdu
    ensures ok <==> |cbor| <= 0xFFFE && |Msg(cmd, cbor, forceExtended)| <= apdu.Length
    ensures if ok then apduLen == |Msg(cmd, cbor, forceExtended)| && apdu[..apduLen] == Msg(cmd, cbor, forceExtended)
            else apduLen == 0
  {
    hide Msg, Bytes16;
    apduLen := 0;
    if |cbor| > 0xFFFE {
      return false, apduLen;
    }
    MsgIs(cmd, cbor, forceExtended);
    var payloadLen := |cbor| + 1;
    var short := !forceExtended && payloadLen <= SHORT_LC_MAX;
    if payloadLen + (if short then 6 else 9) > apdu.Length {
      return false, apduLen;
    }
    if short {
      var p := Put(apdu, 0, [CLA_CTAP, INS_CTAP_MSG, P1_GETRESPONSE, 0x00, payloadLen, cmd]);
      p := Put(apdu, p, cbor);
      p := Put(apdu, p, [0x00]);
      return true, p;
    }
    var p := Put(apdu, 0, [CLA_CTAP, INS_CTAP_MSG, P1_GETRESPONSE, 0x00, 0x00] + Bytes16(payloadLen) + [cmd]);
    p := Put(apdu, p, cbor);
    p := Put(apdu, p, [0x00, 0x00]);
    return true, p;
  }

  /** The body of an NFCCTAP_MSG APDU, without its command byte. */
  function MsgBody(a: seq<u8>): seq<u8>
    requires CtapCommand(a).Some?
  {
    if a[4] != 0 then a[6..5 + a[4]] else a[8..7 + Be16(a[5], a[6])]
  }

  /** Every packed APDU, short or extended, shows its command byte and its payload to the recogniser the reader uses. */
  lemma PackedApduIsRecovered(cmd: u8, cbor: seq<u8>, forceExtended: bool)
    requires |cbor| <= 0xFFFE
    ensures var a := Msg(cmd, cbor, forceExtended);
            && CtapCommand(a) == Some(cmd) && MsgBody(a) == cbor
            && a[..4] == [0x80, 0x10, 0x80, 0x00] && a[|a| - 1] == 0 && (|a| == |cbor| + 10 ==> a[|a| - 2] == 0)
            && |a| == |cbor| + (if !forceExtended && |cbor| < 255 then 7 else 10)
  {
    var a := Msg(cmd, cbor, forceExtended);
    Be16Inverse(|cbor| + 1);
    if !forceExtended && |cbor| + 1 <= SHORT_LC_MAX {
      assert a[6..6 + |cbor|] == cbor;
    } else {
      assert a[8..8 + |cbor|] == cbor;
      assert a[5] == Bytes16(|cbor| + 1)[0] && a[6] == Bytes16(|cbor| + 1)[1];
    }
  }
}
