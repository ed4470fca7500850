/** Streams of length-prefixed messages, each with a table of its own. */
module DelimitedStreams {
  import opened Bits
  import opened Wire
  import opened Descriptors
  import opened Encoding
  import opened Decoding
  import opened Canonical
  import opened RoundTrip
  import opened OutStreams
  import opened InStreams
  import opened Encoder
  import opened Decoder

  /** A table, a struct to send, and what the struct that receives it held before. */
  datatype Item = Item(fields: seq<Field>, slots: seq<Slot>, prior: seq<Slot>)

  ghost predicate Sendable(x: Item) {
    && WellFormed(x.fields) && Typed(x.fields, x.slots) && Typed(x.fields, x.prior)
    && SendableMsg(x.fields, x.slots) && RoomMsg(x.fields, x.slots)
    && |EncMsg(x.fields, x.slots)| < TWO_32
  }

  ghost predicate AllSendable(items: seq<Item>) {
    forall k | 0 <= k < |items| :: Sendable(items[k])
  }

  ghost function EncItem(x: Item): seq<byte>
    requires Sendable(x)
  {
    Delimited(EncMsg(x.fields, x.slots))
  }

  ghost function EncItems(items: seq<Item>): seq<byte>
    requires AllSendable(items)
  {
    if items == [] then [] else EncItem(items[0]) + EncItems(items[1..])
  }

  /** What a call of pb_decode_delimited makes of the stream. */
  ghost function DecItem(x: Item, s: seq<byte>): (r: Parse<seq<Slot>>)
    requires Sendable(x)
    ensures r.Done? ==> Typed(x.fields, r.val)
  {
    match ReadDelimited(s)
    case Fail => Fail
    case Done(body, rest) =>
      match DecMsg(x.fields, body, Defaults(x.fields, x.prior))
      case Fail => Fail
      case Done(slots, _) => Done(slots, rest)
  }

  /** One call after the other. */
  ghost function DecItems(items: seq<Item>, s: seq<byte>): Parse<seq<seq<Slot>>>
    requires AllSendable(items)
    decreases |items|
  {
    if items == [] then Done([], s)
    else
      match DecItem(items[0], s)
      case Fail => Fail
      case Done(first, rest) =>
        match DecItems(items[1..], rest)
        case Fail => Fail
        case Done(more, end) => Done([first] + more, end)
  }

  ghost function CanonItem(x: Item): seq<Slot>
    requires Sendable(x)
  {
    CanonMsg(x.fields, x.slots, x.prior)
  }

  ghost function CanonItems(items: seq<Item>): (r: seq<seq<Slot>>)
    requires AllSendable(items)
    ensures |r| == |items|
  {
    seq(|items|, k requires 0 <= k < |items| => CanonItem(items[k]))
  }

  lemma ItemRoundTrip(x: Item, t: seq<byte>)
    requires Sendable(x)
    ensures DecItem(x, EncItem(x) + t) == Done(CanonItem(x), t)
  {
    hide WellFormed, Typed, SendableMsg, RoomMsg, EncMsg, DecMsg, ReadDelimited, Delimited, CanonMsg, Defaults;
    DelimitedRoundTrip(EncMsg(x.fields, x.slots), t);
    MessageRoundTrip(x.fields, x.slots, x.prior);
  }

  /** As many reads as there were writes recover every message in order and stop where they end. */
  lemma {:induction false} DelimitedRoundTrips(items: seq<Item>, t: seq<byte>)
    requires AllSendable(items)
    ensures DecItems(items, EncItems(items) + t) == Done(CanonItems(items), t)
    decreases |items|
  {
    hide Sendable, EncItem, DecItem, CanonItem;
    if items == [] {
      assert EncItems(items) + t == t;
    } else {
      var rest := EncItems(items[1..]) + t;
      assert EncItems(items) + t == EncItem(items[0]) + rest;
      ItemRoundTrip(items[0], rest);
      DelimitedRoundTrips(items[1..], t);
      assert [CanonItem(items[0])] + CanonItems(items[1..]) == CanonItems(items);
    }
  }

  // ------------------------------------------------------ through the streams

  /** What can be sent is encodable. */
  lemma {:induction false} SendableEncodable(fields: seq<Field>, slots: seq<Slot>)
    requires WellFormed(fields) && Typed(fields, slots) && SendableMsg(fields, slots)
    ensures Encodable(fields, slots)
    decreases fields, 1
  {
    hide WellFormed, Typed, TypedSlot, TypedValue, WellFormedField, EncMsg, EncPacked, Present, AllSendable,
         AllEncodable;
    forall i | 0 <= i < |fields| ensures EncodableField(fields, slots, i) {
      FieldOk(fields, slots, i);
      assert SendableField(fields, slots, i);
      if fields[i].htype.Repeated? {
        ElemsEncodable(fields[i], Entries(SlotOf(fields, slots, i)));
      } else if Present(fields, slots, i) {
        ValueEncodable(fields[i], ValueOf(fields, slots, i));
      }
    }
  }

  lemma {:induction false} ElemsEncodable(f: Field, elems: seq<Value>)
    requires WellFormedField(f) && AllTyped(f, elems) && Canonical.AllSendable(f, elems)
    ensures AllEncodable(f, elems)
    decreases f, 1
  {
    hide SendableValue, EncodableValue, WellFormedField, TypedValue;
    forall k | 0 <= k < |elems| ensures EncodableValue(f, elems[k]) {
      ValueEncodable(f, elems[k]);
    }
  }

  lemma {:induction false} ValueEncodable(f: Field, v: Value)
    requires WellFormedField(f) && TypedValue(f, v) && SendableValue(f, v)
    ensures EncodableValue(f, v)
    decreases f, 0
  {
    if f.ltype.Submessage? { SendableEncodable(f.sub, v.slots); }
  }

  lemma ItemsFrom(items: seq<Item>, i: nat)
    requires AllSendable(items) && i < |items|
    ensures EncItems(items[i..]) == EncItem(items[i]) + EncItems(items[i + 1..])
  {
    assert items[i..][1..] == items[i + 1..];
  }

  lemma ItemEncodable(x: Item)
    requires Sendable(x)
    ensures Encodable(x.fields, x.slots) && EncItem(x) == Prefixed(EncMsg(x.fields, x.slots))
  {
    SendableEncodable(x.fields, x.slots);
  }

  /** Writes the messages one after the other. */
  method SendAll(s: OutStream, items: seq<Item>) returns (ok: bool)
    requires AllSendable(items) && s.Valid()
    modifies s, s.buf
    ensures s.Valid() && s.Untouched()
    ensures ok <==> old(s.Fits(|EncItems(items)|))
    ensures ok ==> s.output == old(s.output) + EncItems(items)
  {
    hide WellFormed, Typed, SendableMsg, RoomMsg, EncMsg, EncItem, Prefixed, Encodable, SizeT;
    assert items[0..] == items;
    for i := 0 to |items|
      invariant s.Valid() && s.Untouched()
      invariant s.output + EncItems(items[i..]) == old(s.output) + EncItems(items)
    {
      ItemsFrom(items, i);
      ItemEncodable(items[i]);
      ok := EncodeDelimited(s, items[i].fields, items[i].slots);
      if !ok { return; }
    }
    return true;
  }

  /** Reads one message for each item, into a struct that held its prior contents. */
  method ReceiveAll(s: InStream, items: seq<Item>) returns (ok: bool, received: seq<seq<Slot>>)
    requires s.Valid() && AllSendable(items)
    modifies s
    ensures s.Valid()
    ensures ok <==> DecItems(items, old(s.Rest())).Done?
    ensures ok ==> DecItems(items, old(s.Rest())) == Done(received, s.Rest())
  {
    hide WellFormed, Typed, SendableMsg, RoomMsg, DecMsg, EncMsg, ReadDelimited;
    received := [];
    PrependNothing(DecItems(items, s.Rest()));
    assert items[0..] == items;
    for i := 0 to |items|
      invariant s.Valid() && |received| == i
      invariant DecItems(items, old(s.Rest())) == Prepended(received, DecItems(items[i..], s.Rest()))
    {
      assert Sendable(items[i]);
      var dest := new Struct(items[i].prior);
      NextItem(items, i, s.Rest(), received);
      ok := DecodeDelimited(s, items[i].fields, dest, true);
      if !ok { return; }
      received := received + [dest.slots];
    }
    assert DecItems(items[|items|..], s.Rest()) == Done([], s.Rest());
    assert received + [] == received;
    ok := true;
  }

  lemma PrependNothing(r: Parse<seq<seq<Slot>>>)
    ensures Prepended([], r) == r
  {
    if r.Done? { assert [] + r.val == r.val; }
  }

  function Prepended(first: seq<seq<Slot>>, r: Parse<seq<seq<Slot>>>): Parse<seq<seq<Slot>>> {
    if r.Done? then Done(first + r.val, r.rest) else Fail
  }

  lemma NextItem(items: seq<Item>, i: nat, s: seq<byte>, first: seq<seq<Slot>>)
    requires AllSendable(items) && i < |items|
    ensures var r := DecItem(items[i], s);
            Prepended(first, DecItems(items[i..], s))
            == if r.Done? then Prepended(first + [r.val], DecItems(items[i + 1..], r.rest)) else Fail
  {
    hide Sendable, DecItem;
    assert items[i..][0] == items[i] && items[i..][1..] == items[i + 1..];
    var r := DecItem(items[i], s);
    if r.Done? {
      var more := DecItems(items[i + 1..], r.rest);
      if more.Done? { assert first + ([r.val] + more.val) == first + [r.val] + more.val; }
    }
  }

  /** Messages written to a buffer that is large enough, and only such a buffer, are read back in
      order in their canonical form, up to exactly the bytes written. */
  method Exchange(buffer: array<byte>, items: seq<Item>) returns (sent: bool, received: seq<seq<Slot>>)
    requires AllSendable(items) && buffer.Length <= SIZE_MAX
    modifies buffer
    ensures sent <==> |EncItems(items)| <= buffer.Length
    ensures sent ==> received == CanonItems(items)
  {
    hide AllSendable, EncItems, DecItems, CanonItems, SizeT;
    received := [];
    var out := new OutStream.Writing(buffer, 0, buffer.Length);
    sent := SendAll(out, items);
    if !sent { return; }
    var all := buffer[..out.bytesWritten];
    assert all == EncItems(items);
    var stream := new InStream(all, 0, |all|);
    DelimitedRoundTrips(items, []);
    assert all + [] == all == stream.Rest();
    var ok;
    ok, received := ReceiveAll(stream, items);
  }
}
