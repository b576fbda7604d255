/** Reading one depth message into the two arrays of its slot. The JSON is a sequence of levels,
    each a sequence of fields; any access to it may throw. */
module DecodeEntries {
  import opened BookSide

  const DEPTH_EVENT_CAPACITY := 1024

  // A field that is a decimal string, or one whose reading throws
  datatype Field = Number(value: int) | NoNumber

  datatype Level = Fields(fields: seq<Field>) | NoArray

  datatype Reading = AllRead | Refused | Threw

  datatype Document = Document(bids: seq<Level>, asks: seq<Level>, u: Field, U: Field, pu: Field) | NoData

  predicate Throws(l: Level)
  {
    l.NoArray? || (exists i :: 0 <= i < |l.fields| && i < 2 && l.fields[i].NoNumber?)
  }

  predicate Short(l: Level)
  {
    l.Fields? && |l.fields| < 2
  }

  // A [price, quantity] pair; further fields are ignored
  predicate Good(l: Level)
  {
    l.Fields? && |l.fields| >= 2 && l.fields[0].Number? && l.fields[1].Number?
  }

  // The level's first field is the entry's price, its second the volume
  predicate Reads(l: Level, e: Entry)
  {
    l.Fields? && |l.fields| >= 2 && l.fields[0] == Number(e.price) && l.fields[1] == Number(e.volume)
  }

  predicate AllGood(levels: seq<Level>)
  {
    |levels| <= DEPTH_EVENT_CAPACITY && forall i :: 0 <= i < |levels| ==> Good(levels[i])
  }

  // The first level that cannot be stored, and how it fails
  predicate StopsAt(levels: seq<Level>, k: int, r: Reading)
  {
    && 0 <= k < |levels| && k <= DEPTH_EVENT_CAPACITY
    && (forall i :: 0 <= i < k ==> Good(levels[i]))
    && (r == Refused ==> k == DEPTH_EVENT_CAPACITY || (Short(levels[k]) && !Throws(levels[k])))
    && (r == Threw ==> k < DEPTH_EVENT_CAPACITY && Throws(levels[k]))
    && r != AllRead
  }

  // The first two fields of a level as numbers
  method ReadFields(l: Level) returns (threw: bool, fields: nat, price: int, volume: int)
    ensures threw <==> Throws(l)
    ensures !threw ==> l.Fields? && fields == |l.fields|
    ensures !threw && fields >= 2 ==> l.fields[0] == Number(price) && l.fields[1] == Number(volume)
  {
    fields, price, volume := 0, 0, 0;
    if l.NoArray? {
      return true, fields, price, volume;
    }
    while fields < |l.fields|
      invariant 0 <= fields <= |l.fields|
      invariant forall i :: 0 <= i < fields && i < 2 ==> l.fields[i].Number?
      invariant fields >= 1 ==> l.fields[0] == Number(price)
      invariant fields >= 2 ==> l.fields[1] == Number(volume)
    {
      if fields < 2 {
        if l.fields[fields].NoNumber? {
          return true, fields, price, volume;
        }
        if fields == 0 { price := l.fields[0].value; } else { volume := l.fields[1].value; }
      }
      fields := fields + 1;
    }
    threw := false;
  }

  /** Stores every level or stops at the first it cannot, and never writes past the capacity. */
  method ReadLevels(levels: seq<Level>, out: array<Entry>) returns (r: Reading, count: nat)
    requires out.Length == DEPTH_EVENT_CAPACITY
    modifies out
    ensures r == AllRead <==> AllGood(levels)
    ensures r == AllRead <==>
              |levels| <= 1024 &&
              forall i :: 0 <= i < |levels| ==>
                && levels[i].Fields? && |levels[i].fields| >= 2
                && levels[i].fields[0].Number? && levels[i].fields[1].Number?
    ensures r != AllRead ==> StopsAt(levels, count, r)
    ensures r == AllRead ==> count == |levels|
    ensures count <= out.Length && count <= |levels|
    ensures forall i :: 0 <= i < count ==>
              && levels[i].Fields? && |levels[i].fields| >= 2
              && levels[i].fields[0] == Number(out[i].price) && levels[i].fields[1] == Number(out[i].volume)
  {
    count := 0;
    while count < |levels|
      invariant 0 <= count <= |levels| && count <= out.Length
      invariant forall i :: 0 <= i < count ==> Reads(levels[i], out[i])
    {
      if count >= DEPTH_EVENT_CAPACITY {
        return Refused, count;
      }
      var threw, fields, price, volume := ReadFields(levels[count]);
      if threw {
        return Threw, count;
      }
      if fields < 2 {
        return Refused, count;
      }
      out[count] := Entry(price, volume);
      count := count + 1;
    }
    r := AllRead;
  }

  // A message the book thread will see as an event rather than as a gap
  predicate Decodable(doc: Document)
  {
    doc.Document? && AllGood(doc.bids) && AllGood(doc.asks) && doc.u.Number? && doc.U.Number? && doc.pu.Number?
  }

  /** Field by field: at most 1024 levels a side, each beginning with two numbers, and three ids. */
  lemma DecodableFields(doc: Document)
    ensures Decodable(doc) <==>
              && doc.Document? && |doc.bids| <= 1024 && |doc.asks| <= 1024
              && (forall l :: l in doc.bids + doc.asks ==>
                    l.Fields? && |l.fields| >= 2 && l.fields[0].Number? && l.fields[1].Number?)
              && doc.u.Number? && doc.U.Number? && doc.pu.Number?
  {
    if doc.Document? {
      assert forall i :: 0 <= i < |doc.bids| ==> doc.bids[i] in doc.bids + doc.asks;
      assert forall i :: 0 <= i < |doc.asks| ==> doc.asks[i] in doc.bids + doc.asks;
    }
  }

  /** Fills the slot's arrays and says whether the message becomes an event; if it does, the
      arrays hold exactly its levels, in order. */
  method Decode(doc: Document, bids: array<Entry>, asks: array<Entry>)
    returns (ok: bool, bidCount: nat, askCount: nat)
    requires bids.Length == asks.Length == DEPTH_EVENT_CAPACITY && bids != asks
    modifies bids, asks
    ensures ok <==> Decodable(doc)
    ensures ok ==> doc.Document? && doc.u.Number? && doc.U.Number? && doc.pu.Number?
    ensures bidCount <= bids.Length && askCount <= asks.Length
    ensures ok ==> bidCount == |doc.bids| && askCount == |doc.asks|
    ensures ok ==> forall i :: 0 <= i < bidCount ==>
              && doc.bids[i].Fields? && |doc.bids[i].fields| >= 2
              && doc.bids[i].fields[0] == Number(bids[i].price) && doc.bids[i].fields[1] == Number(bids[i].volume)
    ensures ok ==> forall i :: 0 <= i < askCount ==>
              && doc.asks[i].Fields? && |doc.asks[i].fields| >= 2
              && doc.asks[i].fields[0] == Number(asks[i].price) && doc.asks[i].fields[1] == Number(asks[i].volume)
  {
    bidCount, askCount := 0, 0;
    if doc.NoData? {
      return false, bidCount, askCount;
    }
    var r;
    r, bidCount := ReadLevels(doc.bids, bids);
    if r != AllRead {
      return false, bidCount, askCount;
    }
    r, askCount := ReadLevels(doc.asks, asks);
    if r != AllRead {
      return false, bidCount, askCount;
    }
    ok := doc.u.Number? && doc.U.Number? && doc.pu.Number?;
  }
}
