/**
 * The order records of the tracker and the pure transforms the page applies
 * to its collection of them: append on add, map-by-id on save edit,
 * filter-by-id on delete, and find-by-id on begin edit.
 */
module Orders {
  import opened Wrappers
  import opened Text

  /** A JavaScript number as the page can produce it: a finite value, or the
      NaN that `parseFloat` returns for a blank field.  Infinities are not
      modelled. */
  datatype Num = Finite(value: real) | NaN

  /** JavaScript subtraction: NaN in either operand gives NaN. */
  function Minus(a: Num, b: Num): (r: Num)
    ensures r.Finite? <==> a.Finite? && b.Finite?
    ensures r.Finite? ==> r.value + b.value == a.value
  {
    if a.Finite? && b.Finite? then Finite(a.value - b.value) else NaN
  }

  /** What a form submits.  A price field is an `<input type="number">`,
      whose value is either blank (None) or the number it shows. */
  datatype Form = Form(
    productName: string,
    orderLink: string,
    trackingNumber: string,
    pricePaid: Option<real>,
    resellValue: Option<real>)

  /** `parseFloat(value || '0')` on a number field, as the add form reads it. */
  function ParseAddField(f: Option<real>): (n: Num)
    ensures n.Finite?
    ensures n.value == (if f.Some? then f.value else 0.0)
  {
    match f
    case None => Finite(0.0)
    case Some(v) => Finite(v)
  }

  /** `parseFloat(value)` on a number field, as the edit form reads it: a
      blank field gives NaN. */
  function ParseEditField(f: Option<real>): (n: Num)
    ensures n.NaN? <==> f.None?
    ensures f.Some? ==> n == Finite(f.value)
  {
    match f
    case None => NaN
    case Some(v) => Finite(v)
  }

  /** `n.toString()` placed in a number field: a finite number is shown,
      "NaN" is not a valid number and the field shows blank. */
  function ShowField(n: Num): (f: Option<real>)
    ensures ParseEditField(f) == n
  {
    match n
    case Finite(v) => Some(v)
    case NaN => None
  }

  datatype Order = Order(
    id: string,
    productName: string,
    orderLink: string,
    pricePaid: Num,
    resellValue: Num,
    profit: Num,
    trackingNumber: string)

  /** The derived field agrees with the two prices. */
  predicate Consistent(o: Order) {
    o.profit == Minus(o.resellValue, o.pricePaid)
  }

  predicate AllConsistent(s: seq<Order>) {
    forall i :: 0 <= i < |s| ==> Consistent(s[i])
  }

  predicate Contains(s: seq<Order>, id: string) {
    exists i :: 0 <= i < |s| && s[i].id == id
  }

  predicate UniqueIds(s: seq<Order>) {
    forall i, j :: 0 <= i < j < |s| ==> s[i].id != s[j].id
  }

  function Ids(s: seq<Order>): (ids: seq<string>)
    ensures |ids| == |s|
    ensures forall i :: 0 <= i < |s| ==> ids[i] == s[i].id
  {
    if s == [] then [] else [s[0].id] + Ids(s[1..])
  }

  // ---------------------------------------------------------------- add

  /** The add form is refused when the product name or the order link is
      blank after trimming. */
  predicate Rejected(form: Form) {
    Trim(form.productName) == [] || Trim(form.orderLink) == []
  }

  /** The record the add form creates: text fields trimmed, blank prices
      read as 0, profit derived. */
  function NewOrder(id: string, form: Form): (o: Order)
    requires !Rejected(form)
    ensures o.id == id
    ensures o.productName == Trim(form.productName) && o.orderLink == Trim(form.orderLink)
    ensures o.trackingNumber == Trim(form.trackingNumber)
    ensures o.pricePaid == ParseAddField(form.pricePaid)
    ensures o.resellValue == ParseAddField(form.resellValue)
    ensures o.productName != [] && Tight(o.productName)
    ensures o.orderLink != [] && Tight(o.orderLink)
    ensures Tight(o.trackingNumber)
    ensures o.pricePaid.Finite? && o.resellValue.Finite? && o.profit.Finite?
    ensures Consistent(o)
  {
    TrimTight(form.productName);
    TrimTight(form.orderLink);
    TrimTight(form.trackingNumber);
    var paid := ParseAddField(form.pricePaid);
    var resell := ParseAddField(form.resellValue);
    Order(id, Trim(form.productName), Trim(form.orderLink), paid, resell,
          Minus(resell, paid), Trim(form.trackingNumber))
  }

  /** The collection after submitting the add form. */
  function AddOrder(s: seq<Order>, id: string, form: Form): (r: seq<Order>)
    ensures Rejected(form) ==> r == s
    ensures !Rejected(form) ==>
      && |r| == |s| + 1
      && r[..|s|] == s
      && r[|s|] == NewOrder(id, form)
  {
    if Rejected(form) then s else s + [NewOrder(id, form)]
  }

  // ---------------------------------------------------------------- edit

  /** The first record carrying `id`, as `Array.prototype.find` locates it;
      `|s|` when there is none. */
  function FirstIndex(s: seq<Order>, id: string): (k: nat)
    ensures k <= |s|
    ensures forall j :: 0 <= j < k ==> s[j].id != id
    ensures k < |s| ==> s[k].id == id
  {
    if s == [] then 0
    else if s[0].id == id then 0
    else 1 + FirstIndex(s[1..], id)
  }

  function Find(s: seq<Order>, id: string): (r: Option<Order>)
    ensures r.None? <==> !Contains(s, id)
    ensures r.Some? ==> r.value in s && r.value.id == id
    ensures r.Some? ==>
      exists k :: 0 <= k < |s| && r.value == s[k] && forall j :: 0 <= j < k ==> s[j].id != id
  {
    var k := FirstIndex(s, id);
    if k < |s| then Some(s[k]) else None
  }

  /** The edit buffer that begin-edit fills from a record. */
  function FormOf(o: Order): (f: Form)
    ensures f.productName == o.productName && f.orderLink == o.orderLink
    ensures f.trackingNumber == o.trackingNumber
    ensures ParseEditField(f.pricePaid) == o.pricePaid
    ensures ParseEditField(f.resellValue) == o.resellValue
  {
    Form(o.productName, o.orderLink, o.trackingNumber,
         ShowField(o.pricePaid), ShowField(o.resellValue))
  }

  /** `{...o, ...}` with the edit buffer: every field but the id is
      replaced, prices are re-parsed and the profit is re-derived. */
  function Apply(o: Order, f: Form): (r: Order)
    ensures r.id == o.id
    ensures r.productName == f.productName && r.orderLink == f.orderLink
    ensures r.trackingNumber == f.trackingNumber
    ensures r.pricePaid == ParseEditField(f.pricePaid)
    ensures r.resellValue == ParseEditField(f.resellValue)
    ensures Consistent(r)
    ensures r.profit.NaN? <==> f.pricePaid.None? || f.resellValue.None?
  {
    var paid := ParseEditField(f.pricePaid);
    var resell := ParseEditField(f.resellValue);
    Order(o.id, f.productName, f.orderLink, paid, resell,
          Minus(resell, paid), f.trackingNumber)
  }

  /** `prev.map(o => o.id === id ? {...} : o)`. */
  function UpdateById(s: seq<Order>, id: string, f: Form): (r: seq<Order>)
    ensures |r| == |s|
    ensures forall i :: 0 <= i < |s| && s[i].id == id ==> r[i] == Apply(s[i], f)
    ensures forall i :: 0 <= i < |s| && s[i].id != id ==> r[i] == s[i]
  {
    if s == [] then []
    else [if s[0].id == id then Apply(s[0], f) else s[0]] + UpdateById(s[1..], id, f)
  }

  // ---------------------------------------------------------------- delete

  /** `prev.filter(order => order.id !== id)`. */
  function RemoveById(s: seq<Order>, id: string): (r: seq<Order>)
    ensures |r| <= |s|
    ensures forall i :: 0 <= i < |r| ==> r[i].id != id
  {
    if s == [] then []
    else (if s[0].id == id then [] else [s[0]]) + RemoveById(s[1..], id)
  }

  // ---------------------------------------------------------------- lemmas

  /** Appending a consistent record keeps every record consistent, and
      appending one with a new id keeps the ids distinct. */
  lemma AppendPreservesInvariants(s: seq<Order>, o: Order)
    ensures AllConsistent(s) && Consistent(o) ==> AllConsistent(s + [o])
    ensures UniqueIds(s) && !Contains(s, o.id) ==> UniqueIds(s + [o])
  {
    var r := s + [o];
    assert forall i :: 0 <= i < |s| ==> r[i] == s[i];
    assert r[|s|] == o;
    if UniqueIds(s) && !Contains(s, o.id) {
      forall i, j | 0 <= i < j < |r| ensures r[i].id != r[j].id {
        if j == |s| {
          assert s[i].id != o.id;
        }
      }
    }
  }

  /** Add keeps every record consistent and, given a fresh id, keeps the
      ids distinct. */
  lemma AddPreservesInvariants(s: seq<Order>, id: string, form: Form)
    ensures AllConsistent(s) ==> AllConsistent(AddOrder(s, id, form))
    ensures UniqueIds(s) && !Contains(s, id) ==> UniqueIds(AddOrder(s, id, form))
  {
    if !Rejected(form) {
      var o := NewOrder(id, form);
      AppendPreservesInvariants(s, o);
    }
  }

  lemma {:induction false} RemoveAbsent(s: seq<Order>, id: string)
    requires !Contains(s, id)
    ensures RemoveById(s, id) == s
  {
    if s != [] {
      assert !Contains(s[1..], id) by {
        forall i | 0 <= i < |s[1..]| ensures s[1..][i].id != id {
          assert s[1..][i] == s[i + 1];
        }
      }
      RemoveAbsent(s[1..], id);
      assert s == [s[0]] + s[1..];
    }
  }

  /** Filtering distributes over concatenation: the records that survive keep
      their relative order. */
  lemma {:induction false} RemoveConcat(a: seq<Order>, b: seq<Order>, id: string)
    ensures RemoveById(a + b, id) == RemoveById(a, id) + RemoveById(b, id)
  {
    if a == [] {
      assert a + b == b;
    } else {
      assert (a + b)[0] == a[0];
      assert (a + b)[1..] == a[1..] + b;
      RemoveConcat(a[1..], b, id);
    }
  }

  /** With distinct ids, no record other than the one at `k` has its id. */
  lemma OthersLackId(s: seq<Order>, k: nat)
    requires UniqueIds(s) && k < |s|
    ensures !Contains(s[..k], s[k].id)
    ensures !Contains(s[k + 1..], s[k].id)
  {
    var pre, post := s[..k], s[k + 1..];
    forall i | 0 <= i < |pre| ensures pre[i].id != s[k].id {
      assert pre[i] == s[i];
    }
    forall i | 0 <= i < |post| ensures post[i].id != s[k].id {
      assert post[i] == s[k + 1 + i];
    }
  }

  /** With distinct ids, deleting the id of the record at `k` removes exactly
      that record and leaves the others in order. */
  lemma {:induction false} RemoveUnique(s: seq<Order>, k: nat)
    requires UniqueIds(s) && k < |s|
    ensures RemoveById(s, s[k].id) == s[..k] + s[k + 1..]
  {
    var id, t := s[k].id, s[1..];
    if k == 0 {
      OthersLackId(s, 0);
      RemoveAbsent(t, id);
      assert s[..0] + s[1..] == t;
    } else {
      assert UniqueIds(t) by {
        forall i, j | 0 <= i < j < |t| ensures t[i].id != t[j].id {
          assert t[i] == s[i + 1] && t[j] == s[j + 1];
        }
      }
      assert t[k - 1] == s[k];
      RemoveUnique(t, k - 1);
      assert s[0].id != id by {
        assert s[0].id != s[k].id;
      }
      assert s[..k] == [s[0]] + t[..k - 1];
      assert s[k + 1..] == t[k..];
    }
  }

  /** Delete keeps every record consistent. */
  lemma {:induction false} RemovePreservesConsistency(s: seq<Order>, id: string)
    requires AllConsistent(s)
    ensures AllConsistent(RemoveById(s, id))
  {
    if s != [] {
      var t := s[1..];
      assert forall i :: 0 <= i < |t| ==> t[i] == s[i + 1];
      RemovePreservesConsistency(t, id);
      var head := if s[0].id == id then [] else [s[0]];
      var r := RemoveById(s, id);
      assert r == head + RemoveById(t, id);
    }
  }

  /** Every record delete keeps comes from the input, and every input
      record with another id is kept. */
  lemma {:induction false} RemoveKeepsOthers(s: seq<Order>, id: string)
    ensures forall i :: 0 <= i < |RemoveById(s, id)| ==> RemoveById(s, id)[i] in s
    ensures forall i :: 0 <= i < |s| && s[i].id != id ==> s[i] in RemoveById(s, id)
  {
    if s != [] {
      var t := s[1..];
      RemoveKeepsOthers(t, id);
      var head := if s[0].id == id then [] else [s[0]];
      var r, rt := RemoveById(s, id), RemoveById(t, id);
      assert r == head + rt;
      forall i | 0 <= i < |r| ensures r[i] in s {
        if i >= |head| {
          assert r[i] == rt[i - |head|];
          assert rt[i - |head|] in t;
        }
      }
      forall i | 0 <= i < |s| && s[i].id != id ensures s[i] in r {
        if i > 0 {
          assert s[i] == t[i - 1];
        }
      }
    }
  }

  /** Delete introduces no id that the input lacks. */
  lemma {:induction false} RemoveKeepsAbsent(s: seq<Order>, id: string, x: string)
    requires !Contains(s, x)
    ensures !Contains(RemoveById(s, id), x)
  {
    if s != [] {
      var t := s[1..];
      assert !Contains(t, x) by {
        forall i | 0 <= i < |t| ensures t[i].id != x {
          assert t[i] == s[i + 1];
        }
      }
      RemoveKeepsAbsent(t, id, x);
      var head := if s[0].id == id then [] else [s[0]];
      var r, rt := RemoveById(s, id), RemoveById(t, id);
      assert r == head + rt;
      forall i | 0 <= i < |r| ensures r[i].id != x {
        if i >= |head| {
          assert r[i] == rt[i - |head|];
        }
      }
    }
  }

  /** Delete keeps the ids distinct. */
  lemma {:induction false} RemovePreservesUniqueIds(s: seq<Order>, id: string)
    requires UniqueIds(s)
    ensures UniqueIds(RemoveById(s, id))
  {
    if s != [] {
      var t := s[1..];
      assert UniqueIds(t) by {
        forall i, j | 0 <= i < j < |t| ensures t[i].id != t[j].id {
          assert t[i] == s[i + 1] && t[j] == s[j + 1];
        }
      }
      RemovePreservesUniqueIds(t, id);
      var rt := RemoveById(t, id);
      if s[0].id != id {
        var r := [s[0]] + rt;
        assert RemoveById(s, id) == r;
        OthersLackId(s, 0);
        RemoveKeepsAbsent(t, id, s[0].id);
        forall i, j | 0 <= i < j < |r| ensures r[i].id != r[j].id {
          if i == 0 {
            assert r[j] == rt[j - 1];
          } else {
            assert r[i] == rt[i - 1] && r[j] == rt[j - 1];
          }
        }
      }
    }
  }

  lemma {:induction false} UpdateAbsent(s: seq<Order>, id: string, f: Form)
    requires !Contains(s, id)
    ensures UpdateById(s, id, f) == s
  {
    var r := UpdateById(s, id, f);
    assert forall i :: 0 <= i < |s| ==> r[i] == s[i];
  }

  /** Save edit keeps the sequence of ids, every record consistent and the
      ids distinct. */
  lemma UpdatePreservesInvariants(s: seq<Order>, id: string, f: Form)
    ensures Ids(UpdateById(s, id, f)) == Ids(s)
    ensures AllConsistent(s) ==> AllConsistent(UpdateById(s, id, f))
    ensures UniqueIds(s) ==> UniqueIds(UpdateById(s, id, f))
  {
    var r := UpdateById(s, id, f);
    assert forall i :: 0 <= i < |s| ==> r[i].id == s[i].id;
    assert Ids(r) == Ids(s);
  }

  /** With distinct ids, save edit replaces exactly the record at `k`. */
  lemma UpdateUnique(s: seq<Order>, k: nat, f: Form)
    requires UniqueIds(s) && k < |s|
    ensures UpdateById(s, s[k].id, f) == s[..k] + [Apply(s[k], f)] + s[k + 1..]
  {
    var r := UpdateById(s, s[k].id, f);
    var t := s[..k] + [Apply(s[k], f)] + s[k + 1..];
    assert |r| == |t|;
    forall i | 0 <= i < |r| ensures r[i] == t[i] {
      if i < k { assert t[i] == s[i]; }
      else if i > k { assert t[i] == s[i]; }
    }
  }

  /** The buffer begin-edit fills from a consistent record gives it back
      unchanged when saved. */
  lemma ApplyFormOf(o: Order)
    requires Consistent(o)
    ensures Apply(o, FormOf(o)) == o
  {
    match o.pricePaid {
      case Finite(_) =>
      case NaN =>
    }
  }

  /** With distinct ids, find returns the one record carrying the id. */
  lemma FindUnique(s: seq<Order>, k: nat)
    requires UniqueIds(s) && k < |s|
    ensures Find(s, s[k].id) == Some(s[k])
  {
  }

  /** Beginning an edit and saving it without touching the buffer leaves the
      collection as it was. */
  lemma EditRoundTrip(s: seq<Order>, id: string)
    requires UniqueIds(s) && AllConsistent(s) && Contains(s, id)
    ensures UpdateById(s, id, FormOf(Find(s, id).value)) == s
  {
    var k := FirstIndex(s, id);
    FindUnique(s, k);
    UpdateUnique(s, k, FormOf(s[k]));
    ApplyFormOf(s[k]);
    assert s == s[..k] + [s[k]] + s[k + 1..];
  }

  /** Deleting the record just added with a fresh id restores the
      collection. */
  lemma AddThenDelete(s: seq<Order>, id: string, form: Form)
    requires !Contains(s, id)
    ensures RemoveById(AddOrder(s, id, form), id) == s
  {
    RemoveAbsent(s, id);
    if !Rejected(form) {
      RemoveConcat(s, [NewOrder(id, form)], id);
      assert RemoveById([NewOrder(id, form)], id) == [];
      assert s + [] == s;
    }
  }
}
