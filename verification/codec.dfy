/** How each record is laid out as elements, following the JAXB annotations:
    the root name from `@XmlRootElement`, one element per field in declaration
    order (null fields omitted), and for each `@XmlElementWrapper` list a
    container holding one item element per entry.

    `PaymentNotificationRequest` is the exception: it has no field access
    declared, so its element names and order are not fixed by its annotations.
    This module gives it the declared names in declaration order, like the
    other records, as a convention.

    For every record there is
    - the list of its scalar fields' element names, in declaration order;
    - a position table giving each element name its place in that order;
    - `Encode*`, and lemmas stating the order of the elements and, where the
      record has a list, where the list's container is and what it holds;
    - `Decode*`, the strict reader of exactly that layout, and a lemma that
      the two are inverse to each other (a record decodes from a tree if and
      only if the tree is that record's encoding).
 */
module Codec {
  import opened Wrappers
  import opened Schema
  import Xml

  // ---------------------------------------------------------------------------
  // CustomerInformationRequest

  const CustomerInformationRequestFields: seq<Xml.Tag> :=
    [Xml.MerchantReference, Xml.CustReference, Xml.ServiceUsername, Xml.ServicePassword,
     Xml.FtpUsername, Xml.FtpPassword]

  /** The place of each element in a CustomerInformationRequest. */
  function CustomerInformationRequestPosition(t: Xml.Tag): int {
    match t
    case MerchantReference => 0
    case CustReference => 1
    case ServiceUsername => 2
    case ServicePassword => 3
    case FtpUsername => 4
    case FtpPassword => 5
    case _ => -1
  }

  lemma CustomerInformationRequestPositions()
    ensures Xml.Positioned(CustomerInformationRequestFields, CustomerInformationRequestPosition, 0)
  {
    assert forall i :: 0 <= i < |CustomerInformationRequestFields| ==> CustomerInformationRequestPosition(CustomerInformationRequestFields[i]) == i;
  }

  function CustomerInformationRequestRow(r: CustomerInformationRequest): (row: seq<Option<string>>)
    ensures |row| == |CustomerInformationRequestFields|
  {
    [r.MerchantReference, r.CustReference, r.ServiceUsername, r.ServicePassword,
     r.FtpUsername, r.FtpPassword]
  }

  function CustomerInformationRequestOfRow(row: seq<Option<string>>): CustomerInformationRequest
    requires |row| == |CustomerInformationRequestFields|
  {
    CustomerInformationRequest(row[0], row[1], row[2], row[3], row[4], row[5])
  }

  lemma CustomerInformationRequestRowOfRow(row: seq<Option<string>>)
    requires |row| == |CustomerInformationRequestFields|
    ensures CustomerInformationRequestRow(CustomerInformationRequestOfRow(row)) == row
  {
  }

  function EncodeCustomerInformationRequest(r: CustomerInformationRequest): Xml.Node {
    Xml.Elem(Xml.CustomerInformationRequest, Xml.Fields(CustomerInformationRequestFields, CustomerInformationRequestRow(r)))
  }

  /** The elements of a CustomerInformationRequest follow the declaration order. */
  lemma CustomerInformationRequestInOrder(r: CustomerInformationRequest)
    ensures Xml.InOrder(EncodeCustomerInformationRequest(r).children, CustomerInformationRequestPosition)
  {
    CustomerInformationRequestPositions();
    Xml.FieldsInOrder(CustomerInformationRequestFields, CustomerInformationRequestRow(r), CustomerInformationRequestPosition, 0);
  }

  function DecodeCustomerInformationRequest(n: Xml.Node): Option<CustomerInformationRequest> {
    if n.Elem? && n.tag == Xml.CustomerInformationRequest then
      match Xml.ReadFlat(CustomerInformationRequestFields, n.children)
      case None => None
      case Some(row) => Some(CustomerInformationRequestOfRow(row))
    else None
  }

  lemma CustomerInformationRequestRoundTrip(r: CustomerInformationRequest)
    ensures DecodeCustomerInformationRequest(EncodeCustomerInformationRequest(r)) == Some(r)
  {
    CustomerInformationRequestPositions();
    Xml.PositionedIsDistinct(CustomerInformationRequestFields, CustomerInformationRequestPosition, 0);
    Xml.ReadFlatOfFields(CustomerInformationRequestFields, CustomerInformationRequestRow(r));
  }

  lemma CustomerInformationRequestCanonical(n: Xml.Node)
    ensures DecodeCustomerInformationRequest(n).Some? ==> EncodeCustomerInformationRequest(DecodeCustomerInformationRequest(n).value) == n
  {
    if DecodeCustomerInformationRequest(n).Some? {
      var row := Xml.ReadFlat(CustomerInformationRequestFields, n.children).value;
      CustomerInformationRequestRowOfRow(row);
      assert n == Xml.Elem(Xml.CustomerInformationRequest, Xml.Fields(CustomerInformationRequestFields, row));
    }
  }

  /** A request decodes from a tree exactly when the tree is its encoding. */
  lemma CustomerInformationRequestCodec(n: Xml.Node, r: CustomerInformationRequest)
    ensures DecodeCustomerInformationRequest(n) == Some(r) <==> n == EncodeCustomerInformationRequest(r)
  {
    CustomerInformationRequestRoundTrip(r);
    CustomerInformationRequestCanonical(n);
  }

  // ---------------------------------------------------------------------------
  // Customer (inside the Customers container)

  const CustomerFields: seq<Xml.Tag> :=
    [Xml.Status, Xml.CustReference, Xml.FirstName, Xml.LastName,
     Xml.OtherName, Xml.Email, Xml.Phone, Xml.ThirdPartyCode,
     Xml.StatusMessage]

  /** The place of each element in a Customer. */
  function CustomerPosition(t: Xml.Tag): int {
    match t
    case Status => 0
    case CustReference => 1
    case FirstName => 2
    case LastName => 3
    case OtherName => 4
    case Email => 5
    case Phone => 6
    case ThirdPartyCode => 7
    case StatusMessage => 8
    case _ => -1
  }

  lemma CustomerPositions()
    ensures Xml.Positioned(CustomerFields, CustomerPosition, 0)
  {
    assert forall i :: 0 <= i < |CustomerFields| ==> CustomerPosition(CustomerFields[i]) == i;
  }

  function CustomerRow(c: Customer): (row: seq<Option<string>>)
    ensures |row| == |CustomerFields|
  {
    [c.Status, c.CustReference, c.FirstName, c.LastName,
     c.OtherName, c.Email, c.Phone, c.ThirdPartyCode,
     c.StatusMessage]
  }

  function CustomerOfRow(row: seq<Option<string>>): Customer
    requires |row| == |CustomerFields|
  {
    Customer(row[0], row[1], row[2], row[3], row[4], row[5], row[6], row[7], row[8])
  }

  lemma CustomerRowOfRow(row: seq<Option<string>>)
    requires |row| == |CustomerFields|
    ensures CustomerRow(CustomerOfRow(row)) == row
  {
  }

  function EncodeCustomer(c: Customer): seq<Xml.Node> {
    Xml.Fields(CustomerFields, CustomerRow(c))
  }

  /** The elements of a Customer follow the declaration order. */
  lemma CustomerInOrder(c: Customer)
    ensures Xml.InOrder(EncodeCustomer(c), CustomerPosition)
  {
    CustomerPositions();
    Xml.FieldsInOrder(CustomerFields, CustomerRow(c), CustomerPosition, 0);
  }

  function DecodeCustomer(nodes: seq<Xml.Node>): Option<Customer> {
    match Xml.ReadFlat(CustomerFields, nodes)
    case None => None
    case Some(row) => Some(CustomerOfRow(row))
  }

  lemma CustomerRoundTrip(c: Customer)
    ensures DecodeCustomer(EncodeCustomer(c)) == Some(c)
  {
    CustomerPositions();
    Xml.PositionedIsDistinct(CustomerFields, CustomerPosition, 0);
    Xml.ReadFlatOfFields(CustomerFields, CustomerRow(c));
  }

  lemma CustomerCanonical(nodes: seq<Xml.Node>)
    ensures DecodeCustomer(nodes).Some? ==> EncodeCustomer(DecodeCustomer(nodes).value) == nodes
  {
    match Xml.ReadFlat(CustomerFields, nodes)
    case None =>
    case Some(row) => CustomerRowOfRow(row);
  }

  lemma CustomerCodec(nodes: seq<Xml.Node>, c: Customer)
    ensures DecodeCustomer(nodes) == Some(c) <==> nodes == EncodeCustomer(c)
  {
    CustomerRoundTrip(c);
    CustomerCanonical(nodes);
  }

  lemma CustomerBijection()
    ensures Xml.Inverts(EncodeCustomer, DecodeCustomer)
    ensures Xml.Reencodes(EncodeCustomer, DecodeCustomer)
  {
    forall c: Customer ensures DecodeCustomer(EncodeCustomer(c)) == Some(c) {
      CustomerRoundTrip(c);
    }
    forall nodes | DecodeCustomer(nodes).Some?
      ensures EncodeCustomer(DecodeCustomer(nodes).value) == nodes
    {
      CustomerCanonical(nodes);
    }
  }

  // ---------------------------------------------------------------------------
  // PaymentItem (inside the PaymentItems container)

  const PaymentItemFields: seq<Xml.Tag> :=
    [Xml.ItemName, Xml.ItemCode, Xml.ItemAmount, Xml.LeadBankCode,
     Xml.LeadBankCbnCode, Xml.LeadBankName, Xml.CategoryCode, Xml.CategoryName,
     Xml.ItemQuantity]

  /** The place of each element in a PaymentItem. */
  function PaymentItemPosition(t: Xml.Tag): int {
    match t
    case ItemName => 0
    case ItemCode => 1
    case ItemAmount => 2
    case LeadBankCode => 3
    case LeadBankCbnCode => 4
    case LeadBankName => 5
    case CategoryCode => 6
    case CategoryName => 7
    case ItemQuantity => 8
    case _ => -1
  }

  lemma PaymentItemPositions()
    ensures Xml.Positioned(PaymentItemFields, PaymentItemPosition, 0)
  {
    assert forall i :: 0 <= i < |PaymentItemFields| ==> PaymentItemPosition(PaymentItemFields[i]) == i;
  }

  function PaymentItemRow(i: PaymentItem): (row: seq<Option<string>>)
    ensures |row| == |PaymentItemFields|
  {
    [i.ItemName, i.ItemCode, i.ItemAmount, i.LeadBankCode,
     i.LeadBankCbnCode, i.LeadBankName, i.CategoryCode, i.CategoryName,
     i.ItemQuantity]
  }

  function PaymentItemOfRow(row: seq<Option<string>>): PaymentItem
    requires |row| == |PaymentItemFields|
  {
    PaymentItem(row[0], row[1], row[2], row[3], row[4], row[5], row[6], row[7], row[8])
  }

  lemma PaymentItemRowOfRow(row: seq<Option<string>>)
    requires |row| == |PaymentItemFields|
    ensures PaymentItemRow(PaymentItemOfRow(row)) == row
  {
  }

  function EncodePaymentItem(i: PaymentItem): seq<Xml.Node> {
    Xml.Fields(PaymentItemFields, PaymentItemRow(i))
  }

  /** The elements of a PaymentItem follow the declaration order. */
  lemma PaymentItemInOrder(i: PaymentItem)
    ensures Xml.InOrder(EncodePaymentItem(i), PaymentItemPosition)
  {
    PaymentItemPositions();
    Xml.FieldsInOrder(PaymentItemFields, PaymentItemRow(i), PaymentItemPosition, 0);
  }

  function DecodePaymentItem(nodes: seq<Xml.Node>): Option<PaymentItem> {
    match Xml.ReadFlat(PaymentItemFields, nodes)
    case None => None
    case Some(row) => Some(PaymentItemOfRow(row))
  }

  lemma PaymentItemRoundTrip(i: PaymentItem)
    ensures DecodePaymentItem(EncodePaymentItem(i)) == Some(i)
  {
    PaymentItemPositions();
    Xml.PositionedIsDistinct(PaymentItemFields, PaymentItemPosition, 0);
    Xml.ReadFlatOfFields(PaymentItemFields, PaymentItemRow(i));
  }

  lemma PaymentItemCanonical(nodes: seq<Xml.Node>)
    ensures DecodePaymentItem(nodes).Some? ==> EncodePaymentItem(DecodePaymentItem(nodes).value) == nodes
  {
    match Xml.ReadFlat(PaymentItemFields, nodes)
    case None =>
    case Some(row) => PaymentItemRowOfRow(row);
  }

  lemma PaymentItemCodec(nodes: seq<Xml.Node>, i: PaymentItem)
    ensures DecodePaymentItem(nodes) == Some(i) <==> nodes == EncodePaymentItem(i)
  {
    PaymentItemRoundTrip(i);
    PaymentItemCanonical(nodes);
  }

  lemma PaymentItemBijection()
    ensures Xml.Inverts(EncodePaymentItem, DecodePaymentItem)
    ensures Xml.Reencodes(EncodePaymentItem, DecodePaymentItem)
  {
    forall i: PaymentItem ensures DecodePaymentItem(EncodePaymentItem(i)) == Some(i) {
      PaymentItemRoundTrip(i);
    }
    forall nodes | DecodePaymentItem(nodes).Some?
      ensures EncodePaymentItem(DecodePaymentItem(nodes).value) == nodes
    {
      PaymentItemCanonical(nodes);
    }
  }

  // ---------------------------------------------------------------------------
  // Payment (24 scalar fields, the PaymentItems list, 11 scalar fields)

  const PaymentFieldsBefore: seq<Xml.Tag> :=
    [Xml.ProductGroupCode, Xml.PaymentLogId, Xml.CustReference, Xml.AlternateCustReference,
     Xml.Amount, Xml.PaymentStatus, Xml.PaymentMethod, Xml.PaymentReference,
     Xml.TerminalId, Xml.ChannelName, Xml.Location, Xml.IsReversal,
     Xml.PaymentDate, Xml.SettlementDate, Xml.InstitutionId, Xml.InstitutionName,
     Xml.BranchName, Xml.BankName, Xml.FeeName, Xml.CustomerName,
     Xml.OtherCustomerInfo, Xml.ReceiptNo, Xml.CollectionsAccount, Xml.ThirdPartyCode]

  const PaymentFieldsAfter: seq<Xml.Tag> :=
    [Xml.BankCode, Xml.CustomerAddress, Xml.CustomerPhoneNumber, Xml.DepositorName,
     Xml.DepositSlipNumber, Xml.PaymentCurrency, Xml.OriginalPaymentLogId, Xml.OriginalPaymentReference,
     Xml.Teller, Xml.Status, Xml.StatusMessage]

  /** The place of each element in a Payment. */
  function PaymentPosition(t: Xml.Tag): int {
    match t
    case ProductGroupCode => 0
    case PaymentLogId => 1
    case CustReference => 2
    case AlternateCustReference => 3
    case Amount => 4
    case PaymentStatus => 5
    case PaymentMethod => 6
    case PaymentReference => 7
    case TerminalId => 8
    case ChannelName => 9
    case Location => 10
    case IsReversal => 11
    case PaymentDate => 12
    case SettlementDate => 13
    case InstitutionId => 14
    case InstitutionName => 15
    case BranchName => 16
    case BankName => 17
    case FeeName => 18
    case CustomerName => 19
    case OtherCustomerInfo => 20
    case ReceiptNo => 21
    case CollectionsAccount => 22
    case ThirdPartyCode => 23
    case PaymentItems => 24
    case BankCode => 25
    case CustomerAddress => 26
    case CustomerPhoneNumber => 27
    case DepositorName => 28
    case DepositSlipNumber => 29
    case PaymentCurrency => 30
    case OriginalPaymentLogId => 31
    case OriginalPaymentReference => 32
    case Teller => 33
    case Status => 34
    case StatusMessage => 35
    case _ => -1
  }

  // The certificate for PaymentFieldsBefore is checked four indices at a time: one
  // quantifier over the whole list is too costly for the solver.

  lemma PaymentPositionsBeforeFrom0()
    ensures forall i :: 0 <= i < 4 ==> PaymentPosition(PaymentFieldsBefore[i]) == i
  {
  }

  lemma PaymentPositionsBeforeFrom4()
    ensures forall i :: 4 <= i < 8 ==> PaymentPosition(PaymentFieldsBefore[i]) == i
  {
  }

  lemma PaymentPositionsBeforeFrom8()
    ensures forall i :: 8 <= i < 12 ==> PaymentPosition(PaymentFieldsBefore[i]) == i
  {
  }

  lemma PaymentPositionsBeforeFrom12()
    ensures forall i :: 12 <= i < 16 ==> PaymentPosition(PaymentFieldsBefore[i]) == i
  {
  }

  lemma PaymentPositionsBeforeFrom16()
    ensures forall i :: 16 <= i < 20 ==> PaymentPosition(PaymentFieldsBefore[i]) == i
  {
  }

  lemma PaymentPositionsBeforeFrom20()
    ensures forall i :: 20 <= i < 24 ==> PaymentPosition(PaymentFieldsBefore[i]) == i
  {
  }

  lemma PaymentPositionsBefore()
    ensures Xml.Positioned(PaymentFieldsBefore, PaymentPosition, 0)
  {
    PaymentPositionsBeforeFrom0();
    PaymentPositionsBeforeFrom4();
    PaymentPositionsBeforeFrom8();
    PaymentPositionsBeforeFrom12();
    PaymentPositionsBeforeFrom16();
    PaymentPositionsBeforeFrom20();
  }

  // The certificate for PaymentFieldsAfter is checked four indices at a time: one
  // quantifier over the whole list is too costly for the solver.

  lemma PaymentPositionsAfterFrom0()
    ensures forall i :: 0 <= i < 4 ==> PaymentPosition(PaymentFieldsAfter[i]) == 25 + i
  {
  }

  lemma PaymentPositionsAfterFrom4()
    ensures forall i :: 4 <= i < 8 ==> PaymentPosition(PaymentFieldsAfter[i]) == 25 + i
  {
  }

  lemma PaymentPositionsAfterFrom8()
    ensures forall i :: 8 <= i < 11 ==> PaymentPosition(PaymentFieldsAfter[i]) == 25 + i
  {
  }

  lemma PaymentPositionsAfter()
    ensures Xml.Positioned(PaymentFieldsAfter, PaymentPosition, |PaymentFieldsBefore| + 1)
  {
    PaymentPositionsAfterFrom0();
    PaymentPositionsAfterFrom4();
    PaymentPositionsAfterFrom8();
  }

  lemma PaymentLayout()
    ensures Xml.PositionedLayout(PaymentFieldsBefore, Xml.PaymentItems, PaymentFieldsAfter, PaymentPosition)
    ensures Xml.DistinctLayout(PaymentFieldsBefore, Xml.PaymentItems, PaymentFieldsAfter)
  {
    PaymentPositionsBefore();
    PaymentPositionsAfter();
    Xml.PositionedLayoutIsDistinct(PaymentFieldsBefore, Xml.PaymentItems, PaymentFieldsAfter, PaymentPosition);
  }

  function PaymentRowBefore(p: Payment): (row: seq<Option<string>>)
    ensures |row| == |PaymentFieldsBefore|
  {
    [p.ProductGroupCode, p.PaymentLogId, p.CustReference, p.AlternateCustReference,
     p.Amount, p.PaymentStatus, p.PaymentMethod, p.PaymentReference,
     p.TerminalId, p.ChannelName, p.Location, p.IsReversal,
     p.PaymentDate, p.SettlementDate, p.InstitutionId, p.InstitutionName,
     p.BranchName, p.BankName, p.FeeName, p.CustomerName,
     p.OtherCustomerInfo, p.ReceiptNo, p.CollectionsAccount, p.ThirdPartyCode]
  }

  function PaymentRowAfter(p: Payment): (row: seq<Option<string>>)
    ensures |row| == |PaymentFieldsAfter|
  {
    [p.BankCode, p.CustomerAddress, p.CustomerPhoneNumber, p.DepositorName,
     p.DepositSlipNumber, p.PaymentCurrency, p.OriginalPaymentLogId, p.OriginalPaymentReference,
     p.Teller, p.Status, p.StatusMessage]
  }

  function PaymentOfRows(v1: seq<Option<string>>, xs: Option<seq<PaymentItem>>, v2: seq<Option<string>>): Payment
    requires |v1| == |PaymentFieldsBefore| && |v2| == |PaymentFieldsAfter|
  {
    Payment(v1[0], v1[1], v1[2], v1[3], v1[4], v1[5],
      v1[6], v1[7], v1[8], v1[9], v1[10], v1[11],
      v1[12], v1[13], v1[14], v1[15], v1[16], v1[17],
      v1[18], v1[19], v1[20], v1[21], v1[22], v1[23],
      xs, v2[0], v2[1], v2[2], v2[3], v2[4],
      v2[5], v2[6], v2[7], v2[8], v2[9], v2[10])
  }

  lemma PaymentRowsOfRows(v1: seq<Option<string>>, xs: Option<seq<PaymentItem>>, v2: seq<Option<string>>)
    requires |v1| == |PaymentFieldsBefore| && |v2| == |PaymentFieldsAfter|
    ensures PaymentRowBefore(PaymentOfRows(v1, xs, v2)) == v1
    ensures PaymentOfRows(v1, xs, v2).PaymentItem == xs
    ensures PaymentRowAfter(PaymentOfRows(v1, xs, v2)) == v2
  {
  }

  lemma PaymentOfOwnRows(p: Payment)
    ensures PaymentOfRows(PaymentRowBefore(p), p.PaymentItem, PaymentRowAfter(p)) == p
  {
  }

  function EncodePayment(p: Payment): seq<Xml.Node> {
    Xml.Record(PaymentFieldsBefore, PaymentRowBefore(p), Xml.PaymentItems, Xml.PaymentItem,
               p.PaymentItem, EncodePaymentItem, PaymentFieldsAfter, PaymentRowAfter(p))
  }

  /** The elements of a Payment follow the declaration order, and the list sits
      in exactly one container holding one item per entry (none when null). */
  lemma PaymentShape(p: Payment)
    ensures Xml.HoldsList(EncodePayment(p), Xml.PaymentItems, Xml.PaymentItem, p.PaymentItem, EncodePaymentItem)
    ensures Xml.InOrder(EncodePayment(p), PaymentPosition)
  {
    PaymentLayout();
    Xml.RecordHoldsList(PaymentFieldsBefore, PaymentRowBefore(p), Xml.PaymentItems, Xml.PaymentItem,
                        p.PaymentItem, EncodePaymentItem, PaymentFieldsAfter, PaymentRowAfter(p));
    Xml.RecordInOrder(PaymentFieldsBefore, PaymentRowBefore(p), Xml.PaymentItems, Xml.PaymentItem,
                      p.PaymentItem, EncodePaymentItem, PaymentFieldsAfter, PaymentRowAfter(p), PaymentPosition);
  }

  function DecodePayment(nodes: seq<Xml.Node>): Option<Payment> {
    var parts := Xml.ReadRecord(PaymentFieldsBefore, Xml.PaymentItems, Xml.PaymentItem, DecodePaymentItem, PaymentFieldsAfter, nodes);
    if parts.Some? then Some(PaymentOfRows(parts.value.0, parts.value.1, parts.value.2)) else None
  }

  lemma PaymentRoundTrip(p: Payment)
    ensures DecodePayment(EncodePayment(p)) == Some(p)
  {
    PaymentLayout();
    PaymentItemBijection();
    PaymentOfOwnRows(p);
    Xml.ReadRecordOfRecord(PaymentFieldsBefore, PaymentRowBefore(p), Xml.PaymentItems, Xml.PaymentItem,
                           p.PaymentItem, EncodePaymentItem, DecodePaymentItem,
                           PaymentFieldsAfter, PaymentRowAfter(p));
  }

  lemma EncodePaymentOfRows(v1: seq<Option<string>>, xs: Option<seq<PaymentItem>>, v2: seq<Option<string>>)
    requires |v1| == |PaymentFieldsBefore| && |v2| == |PaymentFieldsAfter|
    ensures EncodePayment(PaymentOfRows(v1, xs, v2)) ==
            Xml.Record(PaymentFieldsBefore, v1, Xml.PaymentItems, Xml.PaymentItem, xs, EncodePaymentItem, PaymentFieldsAfter, v2)
  {
    PaymentRowsOfRows(v1, xs, v2);
  }

  lemma PaymentCanonical(nodes: seq<Xml.Node>, p: Payment)
    requires DecodePayment(nodes) == Some(p)
    ensures EncodePayment(p) == nodes
  {
    var parts := Xml.ReadRecord(PaymentFieldsBefore, Xml.PaymentItems, Xml.PaymentItem, DecodePaymentItem, PaymentFieldsAfter, nodes).value;
    PaymentItemBijection();
    Xml.RecordOfReadRecord(PaymentFieldsBefore, Xml.PaymentItems, Xml.PaymentItem,
                           EncodePaymentItem, DecodePaymentItem, PaymentFieldsAfter, nodes);
    EncodePaymentOfRows(parts.0, parts.1, parts.2);
  }

  lemma PaymentCodec(nodes: seq<Xml.Node>, p: Payment)
    ensures DecodePayment(nodes) == Some(p) <==> nodes == EncodePayment(p)
  {
    if DecodePayment(nodes) == Some(p) {
      PaymentCanonical(nodes, p);
    }
    if nodes == EncodePayment(p) {
      PaymentRoundTrip(p);
    }
  }

  lemma PaymentBijection()
    ensures Xml.Inverts(EncodePayment, DecodePayment)
    ensures Xml.Reencodes(EncodePayment, DecodePayment)
  {
    forall p: Payment ensures DecodePayment(EncodePayment(p)) == Some(p) {
      PaymentRoundTrip(p);
    }
    forall nodes | DecodePayment(nodes).Some?
      ensures EncodePayment(DecodePayment(nodes).value) == nodes
    {
      PaymentCanonical(nodes, DecodePayment(nodes).value);
    }
  }

  // ---------------------------------------------------------------------------
  // CustomerInformationResponse (MerchantReference, then the Customers list)

  const CustomerInformationResponseFieldsBefore: seq<Xml.Tag> :=
    [Xml.MerchantReference]

  /** The place of each element in a CustomerInformationResponse. */
  function CustomerInformationResponsePosition(t: Xml.Tag): int {
    match t
    case MerchantReference => 0
    case Customers => 1
    case _ => -1
  }

  lemma CustomerInformationResponsePositionsBefore()
    ensures Xml.Positioned(CustomerInformationResponseFieldsBefore, CustomerInformationResponsePosition, 0)
  {
    assert forall i :: 0 <= i < |CustomerInformationResponseFieldsBefore| ==> CustomerInformationResponsePosition(CustomerInformationResponseFieldsBefore[i]) == i;
  }

  lemma CustomerInformationResponseLayout()
    ensures Xml.PositionedLayout(CustomerInformationResponseFieldsBefore, Xml.Customers, [], CustomerInformationResponsePosition)
    ensures Xml.DistinctLayout(CustomerInformationResponseFieldsBefore, Xml.Customers, [])
  {
    CustomerInformationResponsePositionsBefore();
    Xml.PositionedLayoutIsDistinct(CustomerInformationResponseFieldsBefore, Xml.Customers, [], CustomerInformationResponsePosition);
  }

  function CustomerInformationResponseRowBefore(r: CustomerInformationResponse): (row: seq<Option<string>>)
    ensures |row| == |CustomerInformationResponseFieldsBefore|
  {
    [r.MerchantReference]
  }

  function CustomerInformationResponseOfRows(v1: seq<Option<string>>, xs: Option<seq<Customer>>): CustomerInformationResponse
    requires |v1| == |CustomerInformationResponseFieldsBefore|
  {
    CustomerInformationResponse(v1[0], xs)
  }

  lemma CustomerInformationResponseRowsOfRows(v1: seq<Option<string>>, xs: Option<seq<Customer>>)
    requires |v1| == |CustomerInformationResponseFieldsBefore|
    ensures CustomerInformationResponseRowBefore(CustomerInformationResponseOfRows(v1, xs)) == v1
    ensures CustomerInformationResponseOfRows(v1, xs).Customer == xs
  {
  }

  lemma CustomerInformationResponseOfOwnRows(r: CustomerInformationResponse)
    ensures CustomerInformationResponseOfRows(CustomerInformationResponseRowBefore(r), r.Customer) == r
  {
  }

  function CustomerInformationResponseChildren(r: CustomerInformationResponse): seq<Xml.Node> {
    Xml.Record(CustomerInformationResponseFieldsBefore, CustomerInformationResponseRowBefore(r), Xml.Customers, Xml.Customer,
               r.Customer, EncodeCustomer, [], [])
  }

  /** The elements of a CustomerInformationResponse follow the declaration order, and the list sits
      in exactly one container holding one item per entry (none when null). */
  lemma CustomerInformationResponseShape(r: CustomerInformationResponse)
    ensures Xml.HoldsList(CustomerInformationResponseChildren(r), Xml.Customers, Xml.Customer, r.Customer, EncodeCustomer)
    ensures Xml.InOrder(CustomerInformationResponseChildren(r), CustomerInformationResponsePosition)
  {
    CustomerInformationResponseLayout();
    Xml.RecordHoldsList(CustomerInformationResponseFieldsBefore, CustomerInformationResponseRowBefore(r), Xml.Customers, Xml.Customer,
                        r.Customer, EncodeCustomer, [], []);
    Xml.RecordInOrder(CustomerInformationResponseFieldsBefore, CustomerInformationResponseRowBefore(r), Xml.Customers, Xml.Customer,
                      r.Customer, EncodeCustomer, [], [], CustomerInformationResponsePosition);
  }

  function ReadCustomerInformationResponse(nodes: seq<Xml.Node>): Option<CustomerInformationResponse> {
    var parts := Xml.ReadRecord(CustomerInformationResponseFieldsBefore, Xml.Customers, Xml.Customer, DecodeCustomer, [], nodes);
    if parts.Some? then Some(CustomerInformationResponseOfRows(parts.value.0, parts.value.1)) else None
  }

  lemma ReadCustomerInformationResponseChildren(r: CustomerInformationResponse)
    ensures ReadCustomerInformationResponse(CustomerInformationResponseChildren(r)) == Some(r)
  {
    CustomerInformationResponseLayout();
    CustomerBijection();
    CustomerInformationResponseOfOwnRows(r);
    Xml.ReadRecordOfRecord(CustomerInformationResponseFieldsBefore, CustomerInformationResponseRowBefore(r), Xml.Customers, Xml.Customer,
                           r.Customer, EncodeCustomer, DecodeCustomer,
                           [], []);
  }

  lemma CustomerInformationResponseChildrenOfRows(v1: seq<Option<string>>, xs: Option<seq<Customer>>)
    requires |v1| == |CustomerInformationResponseFieldsBefore|
    ensures CustomerInformationResponseChildren(CustomerInformationResponseOfRows(v1, xs)) ==
            Xml.Record(CustomerInformationResponseFieldsBefore, v1, Xml.Customers, Xml.Customer, xs, EncodeCustomer, [], [])
  {
    CustomerInformationResponseRowsOfRows(v1, xs);
  }

  lemma CustomerInformationResponseChildrenOfRead(nodes: seq<Xml.Node>, r: CustomerInformationResponse)
    requires ReadCustomerInformationResponse(nodes) == Some(r)
    ensures CustomerInformationResponseChildren(r) == nodes
  {
    var parts := Xml.ReadRecord(CustomerInformationResponseFieldsBefore, Xml.Customers, Xml.Customer, DecodeCustomer, [], nodes).value;
    CustomerBijection();
    Xml.RecordOfReadRecord(CustomerInformationResponseFieldsBefore, Xml.Customers, Xml.Customer,
                           EncodeCustomer, DecodeCustomer, [], nodes);
    CustomerInformationResponseChildrenOfRows(parts.0, parts.1);
  }

  function EncodeCustomerInformationResponse(r: CustomerInformationResponse): Xml.Node {
    Xml.Elem(Xml.CustomerInformationResponse, CustomerInformationResponseChildren(r))
  }

  function DecodeCustomerInformationResponse(n: Xml.Node): Option<CustomerInformationResponse> {
    if n.Elem? && n.tag == Xml.CustomerInformationResponse then ReadCustomerInformationResponse(n.children) else None
  }

  /** A message decodes from a tree exactly when the tree is its encoding. */
  lemma CustomerInformationResponseCodec(n: Xml.Node, r: CustomerInformationResponse)
    ensures DecodeCustomerInformationResponse(n) == Some(r) <==> n == EncodeCustomerInformationResponse(r)
  {
    if DecodeCustomerInformationResponse(n) == Some(r) {
      CustomerInformationResponseChildrenOfRead(n.children, r);
    }
    if n == EncodeCustomerInformationResponse(r) {
      ReadCustomerInformationResponseChildren(r);
    }
  }

  // ---------------------------------------------------------------------------
  // PaymentNotificationRequest (7 scalar fields, then the Payments list)

  const PaymentNotificationRequestFieldsBefore: seq<Xml.Tag> :=
    [Xml.RouteId, Xml.ServiceUrl, Xml.ServiceUsername, Xml.ServicePassword,
     Xml.FtpUrl, Xml.FtpUsername, Xml.FtpPassword]

  /** The place of each element in a PaymentNotificationRequest. */
  function PaymentNotificationRequestPosition(t: Xml.Tag): int {
    match t
    case RouteId => 0
    case ServiceUrl => 1
    case ServiceUsername => 2
    case ServicePassword => 3
    case FtpUrl => 4
    case FtpUsername => 5
    case FtpPassword => 6
    case Payments => 7
    case _ => -1
  }

  lemma PaymentNotificationRequestPositionsBefore()
    ensures Xml.Positioned(PaymentNotificationRequestFieldsBefore, PaymentNotificationRequestPosition, 0)
  {
    assert forall i :: 0 <= i < |PaymentNotificationRequestFieldsBefore| ==> PaymentNotificationRequestPosition(PaymentNotificationRequestFieldsBefore[i]) == i;
  }

  lemma PaymentNotificationRequestLayout()
    ensures Xml.PositionedLayout(PaymentNotificationRequestFieldsBefore, Xml.Payments, [], PaymentNotificationRequestPosition)
    ensures Xml.DistinctLayout(PaymentNotificationRequestFieldsBefore, Xml.Payments, [])
  {
    PaymentNotificationRequestPositionsBefore();
    Xml.PositionedLayoutIsDistinct(PaymentNotificationRequestFieldsBefore, Xml.Payments, [], PaymentNotificationRequestPosition);
  }

  function PaymentNotificationRequestRowBefore(r: PaymentNotificationRequest): (row: seq<Option<string>>)
    ensures |row| == |PaymentNotificationRequestFieldsBefore|
  {
    [r.RouteId, r.ServiceUrl, r.ServiceUsername, r.ServicePassword,
     r.FtpUrl, r.FtpUsername, r.FtpPassword]
  }

  function PaymentNotificationRequestOfRows(v1: seq<Option<string>>, xs: Option<seq<Payment>>): PaymentNotificationRequest
    requires |v1| == |PaymentNotificationRequestFieldsBefore|
  {
    PaymentNotificationRequest(v1[0], v1[1], v1[2], v1[3], v1[4], v1[5],
      v1[6], xs)
  }

  lemma PaymentNotificationRequestRowsOfRows(v1: seq<Option<string>>, xs: Option<seq<Payment>>)
    requires |v1| == |PaymentNotificationRequestFieldsBefore|
    ensures PaymentNotificationRequestRowBefore(PaymentNotificationRequestOfRows(v1, xs)) == v1
    ensures PaymentNotificationRequestOfRows(v1, xs).Payment == xs
  {
  }

  lemma PaymentNotificationRequestOfOwnRows(r: PaymentNotificationRequest)
    ensures PaymentNotificationRequestOfRows(PaymentNotificationRequestRowBefore(r), r.Payment) == r
  {
  }

  function PaymentNotificationRequestChildren(r: PaymentNotificationRequest): seq<Xml.Node> {
    Xml.Record(PaymentNotificationRequestFieldsBefore, PaymentNotificationRequestRowBefore(r), Xml.Payments, Xml.Payment,
               r.Payment, EncodePayment, [], [])
  }

  /** The elements of a PaymentNotificationRequest follow the declaration order, and the list sits
      in exactly one container holding one item per entry (none when null). */
  lemma PaymentNotificationRequestShape(r: PaymentNotificationRequest)
    ensures Xml.HoldsList(PaymentNotificationRequestChildren(r), Xml.Payments, Xml.Payment, r.Payment, EncodePayment)
    ensures Xml.InOrder(PaymentNotificationRequestChildren(r), PaymentNotificationRequestPosition)
  {
    PaymentNotificationRequestLayout();
    Xml.RecordHoldsList(PaymentNotificationRequestFieldsBefore, PaymentNotificationRequestRowBefore(r), Xml.Payments, Xml.Payment,
                        r.Payment, EncodePayment, [], []);
    Xml.RecordInOrder(PaymentNotificationRequestFieldsBefore, PaymentNotificationRequestRowBefore(r), Xml.Payments, Xml.Payment,
                      r.Payment, EncodePayment, [], [], PaymentNotificationRequestPosition);
  }

  function ReadPaymentNotificationRequest(nodes: seq<Xml.Node>): Option<PaymentNotificationRequest> {
    var parts := Xml.ReadRecord(PaymentNotificationRequestFieldsBefore, Xml.Payments, Xml.Payment, DecodePayment, [], nodes);
    if parts.Some? then Some(PaymentNotificationRequestOfRows(parts.value.0, parts.value.1)) else None
  }

  lemma ReadPaymentNotificationRequestChildren(r: PaymentNotificationRequest)
    ensures ReadPaymentNotificationRequest(PaymentNotificationRequestChildren(r)) == Some(r)
  {
    PaymentNotificationRequestLayout();
    PaymentBijection();
    PaymentNotificationRequestOfOwnRows(r);
    Xml.ReadRecordOfRecord(PaymentNotificationRequestFieldsBefore, PaymentNotificationRequestRowBefore(r), Xml.Payments, Xml.Payment,
                           r.Payment, EncodePayment, DecodePayment,
                           [], []);
  }

  lemma PaymentNotificationRequestChildrenOfRows(v1: seq<Option<string>>, xs: Option<seq<Payment>>)
    requires |v1| == |PaymentNotificationRequestFieldsBefore|
    ensures PaymentNotificationRequestChildren(PaymentNotificationRequestOfRows(v1, xs)) ==
            Xml.Record(PaymentNotificationRequestFieldsBefore, v1, Xml.Payments, Xml.Payment, xs, EncodePayment, [], [])
  {
    PaymentNotificationRequestRowsOfRows(v1, xs);
  }

  lemma PaymentNotificationRequestChildrenOfRead(nodes: seq<Xml.Node>, r: PaymentNotificationRequest)
    requires ReadPaymentNotificationRequest(nodes) == Some(r)
    ensures PaymentNotificationRequestChildren(r) == nodes
  {
    var parts := Xml.ReadRecord(PaymentNotificationRequestFieldsBefore, Xml.Payments, Xml.Payment, DecodePayment, [], nodes).value;
    PaymentBijection();
    Xml.RecordOfReadRecord(PaymentNotificationRequestFieldsBefore, Xml.Payments, Xml.Payment,
                           EncodePayment, DecodePayment, [], nodes);
    PaymentNotificationRequestChildrenOfRows(parts.0, parts.1);
  }

  function EncodePaymentNotificationRequest(r: PaymentNotificationRequest): Xml.Node {
    Xml.Elem(Xml.PaymentNotificationRequest, PaymentNotificationRequestChildren(r))
  }

  function DecodePaymentNotificationRequest(n: Xml.Node): Option<PaymentNotificationRequest> {
    if n.Elem? && n.tag == Xml.PaymentNotificationRequest then ReadPaymentNotificationRequest(n.children) else None
  }

  /** A message decodes from a tree exactly when the tree is its encoding. */
  lemma PaymentNotificationRequestCodec(n: Xml.Node, r: PaymentNotificationRequest)
    ensures DecodePaymentNotificationRequest(n) == Some(r) <==> n == EncodePaymentNotificationRequest(r)
  {
    if DecodePaymentNotificationRequest(n) == Some(r) {
      PaymentNotificationRequestChildrenOfRead(n.children, r);
    }
    if n == EncodePaymentNotificationRequest(r) {
      ReadPaymentNotificationRequestChildren(r);
    }
  }

  // ---------------------------------------------------------------------------
  // PaymentNotificationResponse (the Payments list alone)

  // This record has no scalar fields. Its empty row is kept so that it is
  // read and written by the same fields-list-fields layout as the others.
  const PaymentNotificationResponseFieldsBefore: seq<Xml.Tag> := []

  /** The place of each element in a PaymentNotificationResponse. */
  function PaymentNotificationResponsePosition(t: Xml.Tag): int {
    match t
    case Payments => 0
    case _ => -1
  }

  lemma PaymentNotificationResponseLayout()
    ensures Xml.PositionedLayout(PaymentNotificationResponseFieldsBefore, Xml.Payments, [], PaymentNotificationResponsePosition)
    ensures Xml.DistinctLayout(PaymentNotificationResponseFieldsBefore, Xml.Payments, [])
  {
    Xml.PositionedLayoutIsDistinct(PaymentNotificationResponseFieldsBefore, Xml.Payments, [], PaymentNotificationResponsePosition);
  }

  function PaymentNotificationResponseRowBefore(r: PaymentNotificationResponse): (row: seq<Option<string>>)
    ensures |row| == |PaymentNotificationResponseFieldsBefore|
  {
    []
  }

  function PaymentNotificationResponseOfRows(v1: seq<Option<string>>, xs: Option<seq<Payment>>): PaymentNotificationResponse
    requires |v1| == |PaymentNotificationResponseFieldsBefore|
  {
    PaymentNotificationResponse(xs)
  }

  lemma PaymentNotificationResponseRowsOfRows(v1: seq<Option<string>>, xs: Option<seq<Payment>>)
    requires |v1| == |PaymentNotificationResponseFieldsBefore|
    ensures PaymentNotificationResponseRowBefore(PaymentNotificationResponseOfRows(v1, xs)) == v1
    ensures PaymentNotificationResponseOfRows(v1, xs).Payment == xs
  {
  }

  lemma PaymentNotificationResponseOfOwnRows(r: PaymentNotificationResponse)
    ensures PaymentNotificationResponseOfRows(PaymentNotificationResponseRowBefore(r), r.Payment) == r
  {
  }

  function PaymentNotificationResponseChildren(r: PaymentNotificationResponse): seq<Xml.Node> {
    Xml.Record(PaymentNotificationResponseFieldsBefore, PaymentNotificationResponseRowBefore(r), Xml.Payments, Xml.Payment,
               r.Payment, EncodePayment, [], [])
  }

  /** The elements of a PaymentNotificationResponse follow the declaration order, and the list sits
      in exactly one container holding one item per entry (none when null). */
  lemma PaymentNotificationResponseShape(r: PaymentNotificationResponse)
    ensures Xml.HoldsList(PaymentNotificationResponseChildren(r), Xml.Payments, Xml.Payment, r.Payment, EncodePayment)
    ensures Xml.InOrder(PaymentNotificationResponseChildren(r), PaymentNotificationResponsePosition)
  {
    PaymentNotificationResponseLayout();
    Xml.RecordHoldsList(PaymentNotificationResponseFieldsBefore, PaymentNotificationResponseRowBefore(r), Xml.Payments, Xml.Payment,
                        r.Payment, EncodePayment, [], []);
    Xml.RecordInOrder(PaymentNotificationResponseFieldsBefore, PaymentNotificationResponseRowBefore(r), Xml.Payments, Xml.Payment,
                      r.Payment, EncodePayment, [], [], PaymentNotificationResponsePosition);
  }

  function ReadPaymentNotificationResponse(nodes: seq<Xml.Node>): Option<PaymentNotificationResponse> {
    var parts := Xml.ReadRecord(PaymentNotificationResponseFieldsBefore, Xml.Payments, Xml.Payment, DecodePayment, [], nodes);
    if parts.Some? then Some(PaymentNotificationResponseOfRows(parts.value.0, parts.value.1)) else None
  }

  lemma ReadPaymentNotificationResponseChildren(r: PaymentNotificationResponse)
    ensures ReadPaymentNotificationResponse(PaymentNotificationResponseChildren(r)) == Some(r)
  {
    PaymentNotificationResponseLayout();
    PaymentBijection();
    PaymentNotificationResponseOfOwnRows(r);
    Xml.ReadRecordOfRecord(PaymentNotificationResponseFieldsBefore, PaymentNotificationResponseRowBefore(r), Xml.Payments, Xml.Payment,
                           r.Payment, EncodePayment, DecodePayment,
                           [], []);
  }

  lemma PaymentNotificationResponseChildrenOfRows(v1: seq<Option<string>>, xs: Option<seq<Payment>>)
    requires |v1| == |PaymentNotificationResponseFieldsBefore|
    ensures PaymentNotificationResponseChildren(PaymentNotificationResponseOfRows(v1, xs)) ==
            Xml.Record(PaymentNotificationResponseFieldsBefore, v1, Xml.Payments, Xml.Payment, xs, EncodePayment, [], [])
  {
    PaymentNotificationResponseRowsOfRows(v1, xs);
  }

  lemma PaymentNotificationResponseChildrenOfRead(nodes: seq<Xml.Node>, r: PaymentNotificationResponse)
    requires ReadPaymentNotificationResponse(nodes) == Some(r)
    ensures PaymentNotificationResponseChildren(r) == nodes
  {
    var parts := Xml.ReadRecord(PaymentNotificationResponseFieldsBefore, Xml.Payments, Xml.Payment, DecodePayment, [], nodes).value;
    PaymentBijection();
    Xml.RecordOfReadRecord(PaymentNotificationResponseFieldsBefore, Xml.Payments, Xml.Payment,
                           EncodePayment, DecodePayment, [], nodes);
    PaymentNotificationResponseChildrenOfRows(parts.0, parts.1);
  }

  function EncodePaymentNotificationResponse(r: PaymentNotificationResponse): Xml.Node {
    Xml.Elem(Xml.PaymentNotificationResponse, PaymentNotificationResponseChildren(r))
  }

  function DecodePaymentNotificationResponse(n: Xml.Node): Option<PaymentNotificationResponse> {
    if n.Elem? && n.tag == Xml.PaymentNotificationResponse then ReadPaymentNotificationResponse(n.children) else None
  }

  /** A message decodes from a tree exactly when the tree is its encoding. */
  lemma PaymentNotificationResponseCodec(n: Xml.Node, r: PaymentNotificationResponse)
    ensures DecodePaymentNotificationResponse(n) == Some(r) <==> n == EncodePaymentNotificationResponse(r)
  {
    if DecodePaymentNotificationResponse(n) == Some(r) {
      PaymentNotificationResponseChildrenOfRead(n.children, r);
    }
    if n == EncodePaymentNotificationResponse(r) {
      ReadPaymentNotificationResponseChildren(r);
    }
  }

  // ---------------------------------------------------------------------------
  // Records that are null but for a few fields

  /** A customer without a third-party code: the fields before the contact
      details. */
  lemma CustomerHead(c: Customer)
    ensures EncodeCustomer(c)
            == Xml.Leaf(Xml.Status, c.Status) + (Xml.Leaf(Xml.CustReference, c.CustReference)
               + (Xml.Leaf(Xml.FirstName, c.FirstName) + (Xml.Leaf(Xml.LastName, c.LastName)
               + Xml.Fields(CustomerFields[4..], CustomerRow(c)[4..]))))
  {
    var t, v := CustomerFields, CustomerRow(c);
    Xml.FieldsFrom(t, v, 3);
    Xml.FieldsFrom(t, v, 2);
    Xml.FieldsFrom(t, v, 1);
    Xml.FieldsFrom(t, v, 0);
    assert t[0..] == t && v[0..] == v;
  }

  /** The other name, email, phone and status message of a customer without a
      third-party code. */
  lemma CustomerTail(c: Customer)
    requires c.ThirdPartyCode == None
    ensures Xml.Fields(CustomerFields[4..], CustomerRow(c)[4..])
            == Xml.Leaf(Xml.OtherName, c.OtherName) + (Xml.Leaf(Xml.Email, c.Email)
               + (Xml.Leaf(Xml.Phone, c.Phone) + Xml.Leaf(Xml.StatusMessage, c.StatusMessage)))
  {
    var t, v := CustomerFields, CustomerRow(c);
    assert Xml.Fields(t[9..], v[9..]) == [];
    Xml.FieldsFrom(t, v, 8);
    Xml.FieldsFrom(t, v, 7);
    Xml.FieldsFrom(t, v, 6);
    Xml.FieldsFrom(t, v, 5);
    Xml.FieldsFrom(t, v, 4);
  }

  /** A response with no merchant reference and one customer. */
  lemma CustomerInformationResponseOfOne(r: CustomerInformationResponse, c: Customer)
    requires r.MerchantReference == None && r.Customer == Some([c])
    ensures CustomerInformationResponseChildren(r) == [Xml.Elem(Xml.Customers, [Xml.Elem(Xml.Customer, EncodeCustomer(c))])]
  {
    var row := CustomerInformationResponseRowBefore(r);
    assert row == [None];
    Xml.RecordOfSingleton(CustomerInformationResponseFieldsBefore, row, Xml.Customers, Xml.Customer, c, EncodeCustomer, [], []);
  }

  /** The fields before the item list of a payment that is null but for its
      log id, status and status message. */
  lemma PaymentHead(p: Payment)
    requires p.(PaymentLogId := None, Status := None, StatusMessage := None) == NewPayment
    ensures Xml.Fields(PaymentFieldsBefore, PaymentRowBefore(p)) == Xml.Leaf(Xml.PaymentLogId, p.PaymentLogId)
  {
    var row := PaymentRowBefore(p);
    assert forall i :: 0 <= i < |row| && i != 1 ==> row[i].None?;
    assert PaymentFieldsBefore[1] == Xml.PaymentLogId && row[1] == p.PaymentLogId;
    Xml.FieldsOnlyAt(PaymentFieldsBefore, row, 1);
  }

  /** The fields after the item list of such a payment. */
  lemma PaymentTail(p: Payment)
    requires p.(PaymentLogId := None, Status := None, StatusMessage := None) == NewPayment
    ensures Xml.Fields(PaymentFieldsAfter, PaymentRowAfter(p))
            == Xml.Leaf(Xml.Status, p.Status) + Xml.Leaf(Xml.StatusMessage, p.StatusMessage)
  {
    var row := PaymentRowAfter(p);
    assert forall i :: 0 <= i < |row| && i != 9 && i != 10 ==> row[i].None?;
    assert PaymentFieldsAfter[9] == Xml.Status && row[9] == p.Status;
    assert PaymentFieldsAfter[10] == Xml.StatusMessage && row[10] == p.StatusMessage;
    Xml.FieldsOnlyAtPair(PaymentFieldsAfter, row, 9);
  }

  /** A payment that is null but for its log id, status and status message is
      written as just those three fields. */
  lemma PaymentOfThree(p: Payment)
    requires p.(PaymentLogId := None, Status := None, StatusMessage := None) == NewPayment
    ensures EncodePayment(p)
            == Xml.Leaf(Xml.PaymentLogId, p.PaymentLogId)
               + (Xml.Leaf(Xml.Status, p.Status) + Xml.Leaf(Xml.StatusMessage, p.StatusMessage))
  {
    Xml.RecordOfNull(PaymentFieldsBefore, PaymentRowBefore(p), Xml.PaymentItems, Xml.PaymentItem,
                     p.PaymentItem, EncodePaymentItem, PaymentFieldsAfter, PaymentRowAfter(p));
    PaymentHead(p);
    PaymentTail(p);
  }

  /** A response with one payment. */
  lemma PaymentNotificationResponseOfOne(r: PaymentNotificationResponse, p: Payment)
    requires r.Payment == Some([p])
    ensures PaymentNotificationResponseChildren(r) == [Xml.Elem(Xml.Payments, [Xml.Elem(Xml.Payment, EncodePayment(p))])]
  {
    assert PaymentNotificationResponseRowBefore(r) == [];
    Xml.RecordOfSingleton([], [], Xml.Payments, Xml.Payment, p, EncodePayment, [], []);
  }
}
