/** The state `present_init` hands to `present_finalize` (`src/flow.rs`): length-prefixed blobs and
    tagged payload slots, read back by a cursor. */
module PresentCarry {
  import opened Wrappers
  import opened Octets
  import opened Compact
  import ClaimMap

  const MAX_SLOTS: nat := ClaimMap.MAX_MESSAGES

  datatype Carry = Carry(inner: Octets, presentationHeader: Octets, issuerHeader: Octets, payloads: seq<Payload>)

  // ---- Writing ----

  /** `(n as u32).to_be_bytes()`, which drops what does not fit four octets. */
  function U32(n: nat): (o: Octets)
    ensures |o| == 4
  {
    I2osp(n % U32_LIMIT, 4)
  }

  function Blob(b: Octets): (o: Octets)
    ensures |o| == 4 + |b|
  {
    U32(|b|) + b
  }

  /** A withheld slot is tagged 0, a present one 1: the tag is not the length. */
  function Slot(p: Payload): (o: Octets)
    ensures |o| >= 1
  {
    match p
    case None => [0]
    case Some(b) => [1] + Blob(b)
  }

  function Slots(payloads: seq<Payload>): Octets {
    if payloads == [] then []
    else
      var n := |payloads| - 1;
      Slots(payloads[..n]) + Slot(payloads[n])
  }

  function EncodeCarry(x: Carry): Octets {
    Blob(x.inner) + (Blob(x.presentationHeader) + (Blob(x.issuerHeader) + (U32(|x.payloads|) + Slots(x.payloads))))
  }

  /** The closure `put`. */
  method PutBlob(out: Octets, b: Octets) returns (r: Octets)
    ensures r == out + Blob(b)
  {
    hide U32;
    r := out + U32(|b|);
    r := r + b;
  }

  lemma NoSlots()
    ensures Slots([]) == []
  {
  }

  lemma SlotsGrow(payloads: seq<Payload>, i: nat)
    requires i < |payloads|
    ensures Slots(payloads[..i + 1]) == Slots(payloads[..i]) + Slot(payloads[i])
  {
    hide Slot;
    assert payloads[..i + 1][..i] == payloads[..i];
  }

  method PutSlot(out: Octets, p: Payload) returns (r: Octets)
    ensures r == out + Slot(p)
  {
    hide Blob;
    match p {
      case None =>
        r := out + [0];
      case Some(b) =>
        r := PutBlob(out + [1], b);
        assert out + [1] + Blob(b) == out + ([1] + Blob(b));
    }
  }

  method PutSlots(out: Octets, payloads: seq<Payload>) returns (r: Octets)
    ensures r == out + Slots(payloads)
  {
    hide Slot, Slots;
    r := out;
    NoSlots();
    for i := 0 to |payloads|
      invariant r == out + Slots(payloads[..i])
    {
      SlotsGrow(payloads, i);
      r := PutSlot(r, payloads[i]);
    }
    assert payloads[..|payloads|] == payloads;
  }

  method WriteCarry(x: Carry) returns (out: Octets)
    ensures out == EncodeCarry(x)
  {
    hide Blob, U32, Slots;
    out := PutBlob([], x.inner);
    out := PutBlob(out, x.presentationHeader);
    out := PutBlob(out, x.issuerHeader);
    out := out + U32(|x.payloads|);
    out := PutSlots(out, x.payloads);
    FiveSegments(Blob(x.inner), Blob(x.presentationHeader), Blob(x.issuerHeader), U32(|x.payloads|), Slots(x.payloads));
  }

  lemma FiveSegments(a: Octets, b: Octets, c: Octets, d: Octets, e: Octets)
    ensures [] + a + b + c + d + e == a + (b + (c + (d + e)))
  {
  }

  // ---- Reading, as functions of the position ----

  function TakeAt(data: Octets, pos: nat, n: nat): Result<Octets> {
    if pos + n <= |data| then Ok(data[pos..pos + n]) else Err(MalformedContainer)
  }

  function LengthAt(data: Octets, pos: nat): Result<nat> {
    var b :- TakeAt(data, pos, 4);
    Ok(Os2ip(b))
  }

  function BlobAt(data: Octets, pos: nat): Result<Octets> {
    var n :- LengthAt(data, pos);
    TakeAt(data, pos + 4, n)
  }

  function SlotAt(data: Octets, pos: nat): Result<Payload> {
    var tag :- TakeAt(data, pos, 1);
    if tag[0] == 0 then Ok(None)
    else if tag[0] == 1 then
      var b :- BlobAt(data, pos + 1);
      Ok(Some(b))
    else Err(MalformedContainer)
  }

  function SlotsAt(data: Octets, pos: nat, count: nat): (r: Result<seq<Payload>>)
    ensures r.Ok? ==> |r.value| == count
  {
    if count == 0 then Ok([])
    else
      var front :- SlotsAt(data, pos, count - 1);
      var last :- SlotAt(data, pos + |Slots(front)|);
      Ok(front + [last])
  }

  /** A carry and the position where it ends. */
  function ScanCarry(data: Octets): Result<(Carry, nat)> {
    var inner :- BlobAt(data, 0);
    var p1 := 4 + |inner|;
    var ph :- BlobAt(data, p1);
    var p2 := p1 + 4 + |ph|;
    var header :- BlobAt(data, p2);
    var p3 := p2 + 4 + |header|;
    var count :- LengthAt(data, p3);
    if count > MAX_SLOTS then Err(MalformedContainer)
    else
      var payloads :- SlotsAt(data, p3 + 4, count);
      Ok((Carry(inner, ph, header, payloads), p3 + 4 + |Slots(payloads)|))
  }

  function DecodeCarry(data: Octets): Result<Carry> {
    var scanned :- ScanCarry(data);
    if scanned.1 != |data| then Err(MalformedContainer) else Ok(scanned.0)
  }

  // ---- The cursor ----

  /** Never leaves the buffer, whatever is asked of it. */
  class Cursor {
    const data: Octets
    var pos: nat

    ghost predicate Valid()
      reads this
    {
      pos <= |data|
    }

    constructor (octets: Octets)
      ensures Valid() && data == octets && pos == 0
    {
      data := octets;
      pos := 0;
    }

    method Take(n: nat) returns (r: Result<Octets>)
      requires Valid()
      modifies this`pos
      ensures Valid() && r == TakeAt(data, old(pos), n)
      ensures pos == if r.Ok? then old(pos) + n else old(pos)
    {
      var end := pos + n;
      if end > |data| {
        return Err(MalformedContainer);
      }
      r := Ok(data[pos..end]);
      pos := end;
    }

    method Length() returns (r: Result<nat>)
      requires Valid()
      modifies this`pos
      ensures Valid() && r == LengthAt(data, old(pos))
      ensures pos == if r.Ok? then old(pos) + 4 else old(pos)
    {
      var b := Take(4);
      if b.Err? {
        return Err(b.error);
      }
      r := Ok(Os2ip(b.value));
    }

    method Blob() returns (r: Result<Octets>)
      requires Valid()
      modifies this`pos
      ensures Valid() && r == BlobAt(data, old(pos))
      ensures r.Ok? ==> pos == old(pos) + 4 + |r.value|
      ensures r.Err? ==> pos == if LengthAt(data, old(pos)).Ok? then old(pos) + 4 else old(pos)
    {
      var n := Length();
      if n.Err? {
        return Err(n.error);
      }
      r := Take(n.value);
    }
  }

  lemma {:induction false} SlotsStop(data: Octets, pos: nat, n: nat, count: nat)
    requires n <= count && SlotsAt(data, pos, n) == Err(MalformedContainer)
    ensures SlotsAt(data, pos, count) == Err(MalformedContainer)
  {
    hide SlotAt, Slots;
    if n < count {
      SlotsStop(data, pos, n, count - 1);
    }
  }

  lemma SlotWidth(front: seq<Payload>, p: Payload)
    ensures |Slots(front + [p])| == |Slots(front)| + |Slot(p)|
  {
    assert (front + [p])[..|front|] == front;
  }

  /** `PresentCarry::decode` */
  method ReadCarry(data: Octets) returns (r: Result<Carry>)
    ensures r == DecodeCarry(data)
  {
    hide BlobAt, LengthAt, Slots, SlotsAt;
    var cur := new Cursor(data);
    var inner := cur.Blob();
    if inner.Err? {
      return Err(inner.error);
    }
    var ph := cur.Blob();
    if ph.Err? {
      return Err(ph.error);
    }
    var header := cur.Blob();
    if header.Err? {
      return Err(header.error);
    }
    var count := cur.Length();
    if count.Err? {
      return Err(count.error);
    }
    if count.value > MAX_SLOTS {
      return Err(MalformedContainer);
    }
    ghost var start := cur.pos;
    var payloads;
    payloads := ReadSlots(cur, count.value);
    if payloads.Err? {
      return Err(payloads.error);
    }
    if cur.pos != |data| {
      return Err(MalformedContainer);
    }
    r := Ok(Carry(inner.value, ph.value, header.value, payloads.value));
  }

  method ReadSlots(cur: Cursor, count: nat) returns (r: Result<seq<Payload>>)
    requires cur.Valid()
    modifies cur`pos
    ensures cur.Valid() && r == SlotsAt(cur.data, old(cur.pos), count)
    ensures r.Ok? ==> cur.pos == old(cur.pos) + |Slots(r.value)|
  {
    hide BlobAt, Slots;
    var payloads := [];
    NoSlots();
    for i := 0 to count
      invariant cur.Valid()
      invariant SlotsAt(cur.data, old(cur.pos), i) == Ok(payloads)
      invariant cur.pos == old(cur.pos) + |Slots(payloads)|
    {
      ghost var here := cur.pos;
      var slot: Payload := None;
      var tag := cur.Take(1);
      if tag.Err? {
        SlotsStop(cur.data, old(cur.pos), i + 1, count);
        return Err(MalformedContainer);
      }
      if tag.value[0] == 1 {
        var b := cur.Blob();
        if b.Err? {
          BlobError(cur.data, here + 1);
          SlotsStop(cur.data, old(cur.pos), i + 1, count);
          return Err(MalformedContainer);
        }
        slot := Some(b.value);
      } else if tag.value[0] != 0 {
        SlotsStop(cur.data, old(cur.pos), i + 1, count);
        return Err(MalformedContainer);
      }
      SlotWidth(payloads, slot);
      payloads := payloads + [slot];
    }
    r := Ok(payloads);
  }

  lemma BlobError(data: Octets, pos: nat)
    ensures BlobAt(data, pos).Err? ==> BlobAt(data, pos) == Err(MalformedContainer)
  {
  }

  // ---- Reading is the inverse of writing ----

  /** `o` stands in `data` at `pos`. */
  predicate StandsAt(data: Octets, pos: nat, o: Octets) {
    pos + |o| <= |data| && data[pos..pos + |o|] == o
  }

  lemma StandsConcat(data: Octets, pos: nat, a: Octets, b: Octets)
    ensures StandsAt(data, pos, a + b) <==> StandsAt(data, pos, a) && StandsAt(data, pos + |a|, b)
  {
    if pos + |a| + |b| <= |data| {
      var d := data[pos..pos + |a| + |b|];
      assert d == data[pos..pos + |a|] + data[pos + |a|..pos + |a| + |b|];
      if d == a + b {
        SplitEqual(data[pos..pos + |a|], data[pos + |a|..pos + |a| + |b|], a, b);
      }
    }
  }

  lemma LengthIff(data: Octets, pos: nat, n: nat)
    ensures LengthAt(data, pos) == Ok(n) <==> n < U32_LIMIT && StandsAt(data, pos, U32(n))
  {
    Pow256Values();
    if pos + 4 <= |data| {
      I2ospOfOs2ip(data[pos..pos + 4]);
    }
    if n < U32_LIMIT {
      Os2ipOfI2osp(n, 4);
    }
  }

  lemma BlobIff(data: Octets, pos: nat, b: Octets)
    ensures BlobAt(data, pos) == Ok(b) <==> |b| < U32_LIMIT && StandsAt(data, pos, Blob(b))
  {
    hide LengthAt, U32;
    StandsConcat(data, pos, U32(|b|), b);
    LengthIff(data, pos, |b|);
  }

  predicate FitsSlot(p: Payload) {
    p.Some? ==> |p.value| < U32_LIMIT
  }

  predicate FitsSlots(ps: seq<Payload>) {
    forall i :: 0 <= i < |ps| ==> FitsSlot(ps[i])
  }

  lemma SlotIff(data: Octets, pos: nat, p: Payload)
    ensures SlotAt(data, pos) == Ok(p) <==> FitsSlot(p) && StandsAt(data, pos, Slot(p))
  {
    hide BlobAt, Blob;
    var tag: Octets := if p.Some? then [1] else [0];
    assert StandsAt(data, pos, tag) <==> pos < |data| && data[pos] == tag[0];
    if p.Some? {
      StandsConcat(data, pos, [1], Blob(p.value));
      BlobIff(data, pos + 1, p.value);
    }
  }

  lemma {:induction false} SlotsIff(data: Octets, pos: nat, count: nat, ps: seq<Payload>)
    ensures SlotsAt(data, pos, count) == Ok(ps) <==>
            |ps| == count && FitsSlots(ps) && (count > 0 ==> StandsAt(data, pos, Slots(ps)))
    decreases count
  {
    hide SlotAt, Slot, Slots, StandsAt, FitsSlots, SlotsAt;
    SlotsAtNone(data, pos);
    if count > 0 && |ps| == count {
      var front, last := ps[..count - 1], ps[count - 1];
      assert ps == front + [last];
      SlotsIff(data, pos, count - 1, front);
      SlotIff(data, pos + |Slots(front)|, last);
      StandsConcat(data, pos, Slots(front), Slot(last));
      EmptyStands(data, pos, Slots(front), Slot(last));
      FitsSnoc(front, last);
      SlotsAtSnoc(data, pos, front, last);
      SlotsGrow(ps, count - 1);
      assert ps[..count] == ps;
    }
  }

  lemma SlotsAtNone(data: Octets, pos: nat)
    ensures SlotsAt(data, pos, 0) == Ok([]) && FitsSlots([]) && Slots([]) == []
  {
  }

  lemma SlotsAtSnoc(data: Octets, pos: nat, front: seq<Payload>, last: Payload)
    ensures SlotsAt(data, pos, |front| + 1) == Ok(front + [last]) <==>
            SlotsAt(data, pos, |front|) == Ok(front) && SlotAt(data, pos + |Slots(front)|) == Ok(last)
  {
    hide SlotAt, Slots;
    var r := SlotsAt(data, pos, |front| + 1);
    if r == Ok(front + [last]) {
      var f := SlotsAt(data, pos, |front|).value;
      var l := SlotAt(data, pos + |Slots(f)|).value;
      SplitEqual(f, [l], front, [last]);
    }
  }

  lemma FitsSnoc(front: seq<Payload>, last: Payload)
    ensures FitsSlots(front + [last]) <==> FitsSlots(front) && FitsSlot(last)
  {
    hide FitsSlot;
    if FitsSlots(front + [last]) {
      assert forall i :: 0 <= i < |front| ==> front[i] == (front + [last])[i];
      assert (front + [last])[|front|] == last;
    }
  }

  lemma EmptyStands(data: Octets, pos: nat, a: Octets, b: Octets)
    ensures a == [] && StandsAt(data, pos + |a|, b) ==> StandsAt(data, pos, a)
  {
  }

  /** What `encode` can carry without cutting a length, and `decode` accepts. */
  predicate FitsCarry(x: Carry) {
    && |x.inner| < U32_LIMIT && |x.presentationHeader| < U32_LIMIT && |x.issuerHeader| < U32_LIMIT
    && |x.payloads| <= MAX_SLOTS && FitsSlots(x.payloads)
  }

  lemma CarryStands(data: Octets, x: Carry)
    ensures var p1 := 4 + |x.inner|;
            var p2 := p1 + 4 + |x.presentationHeader|;
            var p3 := p2 + 4 + |x.issuerHeader|;
            StandsAt(data, 0, EncodeCarry(x)) <==>
            && StandsAt(data, 0, Blob(x.inner)) && StandsAt(data, p1, Blob(x.presentationHeader))
            && StandsAt(data, p2, Blob(x.issuerHeader)) && StandsAt(data, p3, U32(|x.payloads|))
            && StandsAt(data, p3 + 4, Slots(x.payloads))
  {
    hide StandsAt, Blob, U32, Slots;
    var d := U32(|x.payloads|) + Slots(x.payloads);
    var c := Blob(x.issuerHeader) + d;
    var b := Blob(x.presentationHeader) + c;
    var p1 := 4 + |x.inner|;
    var p2 := p1 + 4 + |x.presentationHeader|;
    var p3 := p2 + 4 + |x.issuerHeader|;
    StandsConcat(data, 0, Blob(x.inner), b);
    StandsConcat(data, p1, Blob(x.presentationHeader), c);
    StandsConcat(data, p2, Blob(x.issuerHeader), d);
    StandsConcat(data, p3, U32(|x.payloads|), Slots(x.payloads));
  }

  /** Scanning finds a carry exactly where its encoding stands at the front of the buffer. */
  lemma ScanIff(data: Octets, x: Carry, n: nat)
    ensures ScanCarry(data) == Ok((x, n)) <==> FitsCarry(x) && n == |EncodeCarry(x)| && StandsAt(data, 0, EncodeCarry(x))
  {
    hide BlobAt, LengthAt, SlotsAt, StandsAt, Blob, U32, Slots, FitsSlots, EncodeCarry;
    var p1 := 4 + |x.inner|;
    var p2 := p1 + 4 + |x.presentationHeader|;
    var p3 := p2 + 4 + |x.issuerHeader|;
    CarryStands(data, x);
    CarryLength(x);
    BlobIff(data, 0, x.inner);
    BlobIff(data, p1, x.presentationHeader);
    BlobIff(data, p2, x.issuerHeader);
    LengthIff(data, p3, |x.payloads|);
    SlotsIff(data, p3 + 4, |x.payloads|, x.payloads);
    NothingStands(data, p3, x.payloads);
  }

  lemma CarryLength(x: Carry)
    ensures |EncodeCarry(x)| == 16 + |x.inner| + |x.presentationHeader| + |x.issuerHeader| + |Slots(x.payloads)|
  {
  }

  lemma NothingStands(data: Octets, pos: nat, ps: seq<Payload>)
    ensures ps == [] && StandsAt(data, pos, U32(|ps|)) ==> StandsAt(data, pos + 4, Slots(ps))
  {
  }

  /** Decoding accepts exactly the encodings of carries that fit, and returns what was encoded. */
  lemma DecodeCarryIff(data: Octets, x: Carry)
    ensures DecodeCarry(data) == Ok(x) <==> FitsCarry(x) && data == EncodeCarry(x)
  {
    hide ScanCarry, FitsCarry, EncodeCarry;
    ScanIff(data, x, |data|);
    assert data[0..|data|] == data;
  }

  /** No strict prefix of a valid encoding is accepted. */
  lemma NoPrefixDecodes(x: Carry, data: Octets)
    requires FitsCarry(x) && data <= EncodeCarry(x) && DecodeCarry(data).Ok?
    ensures data == EncodeCarry(x) && DecodeCarry(data).value == x
  {
    hide ScanCarry, FitsCarry, EncodeCarry, DecodeCarry;
    var whole := EncodeCarry(x);
    var y := DecodeCarry(data).value;
    DecodeCarryIff(data, y);
    assert whole[0..|whole|] == whole && whole[0..|data|] == data;
    ScanIff(whole, x, |whole|);
    ScanIff(whole, y, |data|);
  }
}
