/**
 * The `labubuOrders` snapshot in local storage.  The page writes
 * `JSON.stringify(orders)` after every change of `orders`.  JSON numbers
 * are finite, so `JSON.stringify` writes a NaN price or profit as `null`,
 * and parsing the snapshot gives `null` back, not a number.
 */
module Storage {
  import opened Wrappers
  import opened Orders

  /** A number field of the stored JSON. */
  datatype JsonNumber = Number(value: real) | Null

  /** A record as the stored JSON holds it. */
  datatype StoredOrder = StoredOrder(
    id: string,
    productName: string,
    orderLink: string,
    pricePaid: JsonNumber,
    resellValue: JsonNumber,
    profit: JsonNumber,
    trackingNumber: string)

  /** `JSON.stringify` of a number: NaN is written as `null`. */
  function EncodeNum(n: Num): JsonNumber {
    match n
    case Finite(x) => Number(x)
    case NaN => Null
  }

  function Encode(o: Order): StoredOrder {
    StoredOrder(o.id, o.productName, o.orderLink, EncodeNum(o.pricePaid),
                EncodeNum(o.resellValue), EncodeNum(o.profit), o.trackingNumber)
  }

  /** `JSON.stringify(orders)`. */
  function Serialize(s: seq<Order>): seq<StoredOrder> {
    if s == [] then [] else [Encode(s[0])] + Serialize(s[1..])
  }

  /** The snapshot holds one stored record per record, in order. */
  lemma {:induction false} SerializeSpec(s: seq<Order>)
    ensures |Serialize(s)| == |s|
    ensures forall i :: 0 <= i < |s| ==> Serialize(s)[i] == Encode(s[i])
  {
    if s != [] {
      var t := s[1..];
      SerializeSpec(t);
      forall i | 0 <= i < |s| ensures Serialize(s)[i] == Encode(s[i]) {
        if i > 0 {
          assert Serialize(s)[i] == Serialize(t)[i - 1];
          assert t[i - 1] == s[i];
        }
      }
    }
  }

  /** Reading a stored record back as an `Order`; a `null` where a number
      belongs yields no record. */
  function Decode(j: StoredOrder): (r: Option<Order>)
    ensures r.Some? <==> j.pricePaid.Number? && j.resellValue.Number? && j.profit.Number?
  {
    match (j.pricePaid, j.resellValue, j.profit)
    case (Number(p), Number(v), Number(f)) =>
      Some(Order(j.id, j.productName, j.orderLink, Finite(p), Finite(v), Finite(f),
                 j.trackingNumber))
    case _ => None
  }

  /** Reading the whole snapshot back; it fails as soon as one record holds
      a `null` number. */
  function Restore(s: seq<StoredOrder>): Option<seq<Order>> {
    if s == [] then Some([])
    else
      match (Decode(s[0]), Restore(s[1..]))
      case (Some(o), Some(rest)) => Some([o] + rest)
      case _ => None
  }

  predicate FiniteOrder(o: Order) {
    o.pricePaid.Finite? && o.resellValue.Finite? && o.profit.Finite?
  }

  predicate AllFinite(s: seq<Order>) {
    forall i :: 0 <= i < |s| ==> FiniteOrder(s[i])
  }

  lemma DecodeEncode(o: Order)
    ensures Decode(Encode(o)) == (if FiniteOrder(o) then Some(o) else None)
  {
  }

  /** The snapshot reads back as the collection exactly when every price
      and profit is finite; otherwise it does not read back as records at
      all. */
  lemma {:induction false} RestoreSerialize(s: seq<Order>)
    ensures Restore(Serialize(s)) == (if AllFinite(s) then Some(s) else None)
  {
    if s != [] {
      var t := s[1..];
      RestoreSerialize(t);
      DecodeEncode(s[0]);
      var e := Serialize(s);
      assert e == [Encode(s[0])] + Serialize(t);
      assert e[0] == Encode(s[0]);
      assert e[1..] == Serialize(t);
      assert AllFinite(s) <==> FiniteOrder(s[0]) && AllFinite(t) by {
        if FiniteOrder(s[0]) && AllFinite(t) {
          forall i | 0 <= i < |s| ensures FiniteOrder(s[i]) {
            if i > 0 {
              assert s[i] == t[i - 1];
            }
          }
        }
        if AllFinite(s) {
          forall i | 0 <= i < |t| ensures FiniteOrder(t[i]) {
            assert t[i] == s[i + 1];
          }
        }
      }
      if AllFinite(s) {
        assert s == [s[0]] + t;
      }
    }
  }

  /** An add keeps every number finite, so the snapshot still reads back. */
  lemma AddKeepsFinite(s: seq<Order>, id: string, form: Form)
    requires AllFinite(s)
    ensures AllFinite(AddOrder(s, id, form))
  {
    if !Rejected(form) {
      var r := AddOrder(s, id, form);
      forall i | 0 <= i < |r| ensures FiniteOrder(r[i]) {
        if i < |s| {
          assert r[i] == r[..|s|][i];
        }
      }
    }
  }

  /** Saving an edit with a blank price field to an id in the collection
      leaves a snapshot that no longer reads back as records. */
  lemma BlankEditLosesSnapshot(s: seq<Order>, id: string, f: Form)
    requires Contains(s, id) && (f.pricePaid.None? || f.resellValue.None?)
    ensures Restore(Serialize(UpdateById(s, id, f))) == None
  {
    var r := UpdateById(s, id, f);
    var k :| 0 <= k < |s| && s[k].id == id;
    assert !FiniteOrder(r[k]);
    RestoreSerialize(r);
  }
}
