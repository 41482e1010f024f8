/**
 * The state of the `Home` page component and its event handlers.  Each
 * handler updates the component's state fields in place; the collection
 * transforms come from module Orders.
 */
module Home {
  import opened Wrappers
  import opened Orders
  import opened Storage

  /** JavaScript truthiness of `editingOrderId`: null and "" are falsy. */
  predicate Truthy(id: Option<string>) {
    id.Some? && id.value != ""
  }

  class HomePage {
    var orders: seq<Order>
    /** The `labubuOrders` slot of local storage, which the page rewrites
        with `JSON.stringify(orders)` after every change of `orders`. */
    var stored: seq<StoredOrder>
    var isModalOpen: bool
    var isAddModalOpen: bool
    var editingOrderId: Option<string>
    var editProductName: string
    var editOrderLink: string
    var editPricePaid: Option<real>
    var editResellValue: Option<real>
    var editTrackingNumber: string

    /** Every record's profit agrees with its prices, ids are distinct, the
        stored snapshot is the serialized collection, and the edit dialog
        is open exactly while an edit is in progress. */
    ghost predicate Valid()
      reads this
    {
      && AllConsistent(orders)
      && UniqueIds(orders)
      && stored == Serialize(orders)
      && isModalOpen == editingOrderId.Some?
    }

    /** The edit buffer, as the edit form submits it. */
    function EditBuffer(): Form
      reads this
    {
      Form(editProductName, editOrderLink, editTrackingNumber, editPricePaid, editResellValue)
    }

    constructor ()
      ensures Valid()
      ensures orders == []
      ensures !isModalOpen && !isAddModalOpen && editingOrderId == None
      ensures EditBuffer() == Form("", "", "", None, None)
    {
      orders := [];
      stored := [];
      isModalOpen := false;
      isAddModalOpen := false;
      editingOrderId := None;
      editProductName, editOrderLink, editTrackingNumber := "", "", "";
      editPricePaid, editResellValue := None, None;
    }

    /** The "New Order" button. */
    method OpenAddModal()
      requires Valid()
      modifies this`isAddModalOpen
      ensures Valid() && isAddModalOpen
    {
      isAddModalOpen := true;
    }

    /** The add dialog's "Cancel" button. */
    method CancelAdd()
      requires Valid()
      modifies this`isAddModalOpen
      ensures Valid() && !isAddModalOpen
    {
      isAddModalOpen := false;
    }

    /** `handleAdd`: `id` is the clock reading `Date.now()` turns into the
        new record's id, which is fresh. */
    method HandleAdd(id: string, form: Form)
      requires Valid()
      requires !Contains(orders, id)
      modifies this`orders, this`stored, this`isAddModalOpen
      ensures Valid()
      ensures orders == AddOrder(old(orders), id, form)
      ensures isAddModalOpen == (old(isAddModalOpen) && Rejected(form))
    {
      if Rejected(form) {
        return;
      }
      var next := AddOrder(orders, id, form);
      AddPreservesInvariants(orders, id, form);
      orders, stored := next, Serialize(next);
      isAddModalOpen := false;
    }

    /** `handleEdit`: copies the first record with `id` into the edit
        buffer and opens the edit dialog; an unknown id changes nothing. */
    method HandleEdit(id: string)
      requires Valid()
      modifies this`editingOrderId, this`isModalOpen, this`editProductName,
        this`editOrderLink, this`editPricePaid, this`editResellValue, this`editTrackingNumber
      ensures Valid()
      ensures !Contains(orders, id) ==>
        && editingOrderId == old(editingOrderId) && isModalOpen == old(isModalOpen)
        && EditBuffer() == old(EditBuffer())
      ensures Contains(orders, id) ==>
        && editingOrderId == Some(id) && isModalOpen
        && EditBuffer() == FormOf(Find(orders, id).value)
    {
      var found := Find(orders, id);
      if found.None? {
        return;
      }
      var o := found.value;
      editingOrderId := Some(id);
      editProductName := o.productName;
      editOrderLink := o.orderLink;
      editPricePaid := ShowField(o.pricePaid);
      editResellValue := ShowField(o.resellValue);
      editTrackingNumber := o.trackingNumber;
      isModalOpen := true;
    }

    /** The `onChange` handlers of the edit form's five inputs. */
    method ChangeEditBuffer(f: Form)
      requires Valid()
      modifies this`editProductName, this`editOrderLink, this`editPricePaid,
        this`editResellValue, this`editTrackingNumber
      ensures Valid() && EditBuffer() == f
    {
      editProductName := f.productName;
      editOrderLink := f.orderLink;
      editPricePaid := f.pricePaid;
      editResellValue := f.resellValue;
      editTrackingNumber := f.trackingNumber;
    }

    /** `handleSaveEdit`: writes the buffer into every record with the
        edited id, then closes the dialog.  With no (truthy) edited id it
        does nothing. */
    method HandleSaveEdit()
      requires Valid()
      modifies this`orders, this`stored, this`isModalOpen, this`editingOrderId
      ensures Valid()
      ensures !Truthy(old(editingOrderId)) ==>
        && orders == old(orders)
        && editingOrderId == old(editingOrderId) && isModalOpen == old(isModalOpen)
      ensures Truthy(old(editingOrderId)) ==>
        && orders == UpdateById(old(orders), old(editingOrderId).value, EditBuffer())
        && Ids(orders) == Ids(old(orders))
        && editingOrderId == None && !isModalOpen
    {
      if !Truthy(editingOrderId) {
        return;
      }
      UpdatePreservesInvariants(orders, editingOrderId.value, EditBuffer());
      orders := UpdateById(orders, editingOrderId.value, EditBuffer());
      stored := Serialize(orders);
      isModalOpen := false;
      editingOrderId := None;
    }

    /** The edit dialog's "Cancel" button. */
    method CancelEdit()
      requires Valid()
      modifies this`isModalOpen, this`editingOrderId
      ensures Valid() && !isModalOpen && editingOrderId == None
    {
      isModalOpen := false;
      editingOrderId := None;
    }

    /** `handleDelete`: drops every record with `id`, keeping the others in
        order. */
    method HandleDelete(id: string)
      requires Valid()
      modifies this`orders, this`stored
      ensures Valid()
      ensures orders == RemoveById(old(orders), id)
      ensures !Contains(old(orders), id) ==> orders == old(orders)
      ensures forall k :: 0 <= k < |old(orders)| && old(orders)[k].id == id ==>
        orders == old(orders)[..k] + old(orders)[k + 1..]
    {
      RemovePreservesConsistency(orders, id);
      RemovePreservesUniqueIds(orders, id);
      if !Contains(orders, id) {
        RemoveAbsent(orders, id);
      }
      forall k | 0 <= k < |orders| && orders[k].id == id
        ensures RemoveById(orders, id) == orders[..k] + orders[k + 1..]
      {
        RemoveUnique(orders, k);
      }
      orders := RemoveById(orders, id);
      stored := Serialize(orders);
    }
  }

  /** Opening an edit and saving it without typing anything leaves the
      collection as it was. */
  method EditWithoutChangesKeepsOrders(page: HomePage, id: string)
    requires page.Valid() && Contains(page.orders, id)
    modifies page
    ensures page.Valid() && page.orders == old(page.orders)
  {
    EditRoundTrip(page.orders, id);
    page.HandleEdit(id);
    page.HandleSaveEdit();
  }
}
