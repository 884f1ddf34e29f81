/** The two request handlers of the endpoint, on decoded messages. The customer
    lookup answers every reference with the same fixed profile; the payment
    notification reads only the first payment of the request and acknowledges
    it. Decoding the body and encoding the answer are the caller's business.
 */
module Handlers {
  import opened Wrappers
  import opened Schema
  import Xml
  import Codec

  const SuccessStatus: string := "0"
  const SuccessMessage: string := "Successful"

  /** The customer profile every lookup returns, whatever the reference. */
  const ProfileFirstName: string := "John"
  const ProfileLastName: string := "Doe"
  const ProfileOtherName: string := "Doe"
  const ProfileEmail: string := "example@mail.com"
  const ProfilePhone: string := "08012345678"

  // ---------------------------------------------------------------------------
  // Customer lookup

  /** Answers a customer-information request with one customer that echoes the
      requested reference under the fixed profile. */
  function ValidateCustomerReference(request: CustomerInformationRequest): (response: CustomerInformationResponse)
    ensures response.MerchantReference == None
    ensures response.Customer.Some? && |response.Customer.value| == 1
    ensures var c := response.Customer.value[0];
      && c.CustReference == request.CustReference
      && c.Status == Some(SuccessStatus)
      && c.StatusMessage == Some(SuccessMessage)
      && c.FirstName == Some(ProfileFirstName)
      && c.LastName == Some(ProfileLastName)
      && c.OtherName == Some(ProfileOtherName)
      && c.Email == Some(ProfileEmail)
      && c.Phone == Some(ProfilePhone)
      && c.ThirdPartyCode == None
  {
    var customer := NewCustomer.(
      CustReference := request.CustReference,
      Status := Some(SuccessStatus),
      FirstName := Some(ProfileFirstName),
      LastName := Some(ProfileLastName),
      OtherName := Some(ProfileOtherName),
      Email := Some(ProfileEmail),
      Phone := Some(ProfilePhone),
      StatusMessage := Some(SuccessMessage));
    NewCustomerInformationResponse.(Customer := Some([customer]))
  }

  /** Only the customer reference of a request has any bearing on the answer. */
  lemma CustomerResponseDependsOnReferenceOnly(a: CustomerInformationRequest, b: CustomerInformationRequest)
    ensures ValidateCustomerReference(a) == ValidateCustomerReference(b) <==> a.CustReference == b.CustReference
  {
    if ValidateCustomerReference(a) == ValidateCustomerReference(b) {
      assert ValidateCustomerReference(a).Customer.value[0].CustReference == a.CustReference;
    }
  }

  // ---------------------------------------------------------------------------
  // Payment notification

  /** The payment notification accepts a request exactly when it carries a
      first payment whose amount is present and reads as a decimal number.
      Java's `Double.parseDouble` is the parameter `parsesAsDouble`. */
  predicate Accepts(request: PaymentNotificationRequest, parsesAsDouble: string -> bool) {
    && request.Payment.Some?
    && |request.Payment.value| > 0
    && request.Payment.value[0].Amount.Some?
    && parsesAsDouble(request.Payment.value[0].Amount.value)
  }

  /** Acknowledges the first payment of a notification: one payment carrying the
      log id of the first one and a success status, every other field null.
      Fails on a null or empty payment list and on a null or non-numeric amount. */
  function NotifyOfPayment(request: PaymentNotificationRequest, parsesAsDouble: string -> bool)
    : (r: Result<PaymentNotificationResponse>)
    ensures r.Ok? <==> Accepts(request, parsesAsDouble)
    ensures r.Ok? ==>
      && r.value.Payment.Some? && |r.value.Payment.value| == 1
      && var p := r.value.Payment.value[0];
      && p.PaymentLogId == request.Payment.value[0].PaymentLogId
      && p.Status == Some(SuccessStatus)
      && p.StatusMessage == Some(SuccessMessage)
      && p.(PaymentLogId := None, Status := None, StatusMessage := None) == NewPayment
  {
    match request.Payment
    case None => Error
    case Some(payments) =>
      if |payments| == 0 then Error
      else
        var first := payments[0];
        match first.Amount
        case None => Error
        case Some(amount) =>
          if !parsesAsDouble(amount) then Error
          else
            var payment := NewPayment.(
              PaymentLogId := first.PaymentLogId,
              Status := Some(SuccessStatus),
              StatusMessage := Some(SuccessMessage));
            Ok(NewPaymentNotificationResponse.(Payment := Some([payment])))
  }

  /** Everything after the first payment, and everything in the first payment
      but its log id and amount, is ignored. */
  lemma {:induction false} OnlyFirstPaymentMatters(a: PaymentNotificationRequest, b: PaymentNotificationRequest,
                                                   parsesAsDouble: string -> bool)
    requires a.Payment.Some? && |a.Payment.value| > 0
    requires b.Payment.Some? && |b.Payment.value| > 0
    requires a.Payment.value[0].PaymentLogId == b.Payment.value[0].PaymentLogId
    requires a.Payment.value[0].Amount == b.Payment.value[0].Amount
    ensures NotifyOfPayment(a, parsesAsDouble) == NotifyOfPayment(b, parsesAsDouble)
  {
    var r, s := NotifyOfPayment(a, parsesAsDouble), NotifyOfPayment(b, parsesAsDouble);
    if r.Ok? {
      assert s.Ok?;
      assert r.value.Payment.value[0] == s.value.Payment.value[0];
    }
  }

  // ---------------------------------------------------------------------------
  // The answers as they appear on the wire

  function TextLeaf(tag: Xml.Tag, s: string): Xml.Node {
    Xml.Elem(tag, [Xml.Text(s)])
  }

  /** The content of the one Customer element of a customer-information answer:
      the status, the reference unless it is null, the fixed names and contact
      details, and the status message. No third-party code appears. */
  function ProfileElements(custReference: Option<string>): seq<Xml.Node> {
    [TextLeaf(Xml.Status, SuccessStatus)]
    + Xml.Leaf(Xml.CustReference, custReference)
    + [TextLeaf(Xml.FirstName, ProfileFirstName), TextLeaf(Xml.LastName, ProfileLastName),
       TextLeaf(Xml.OtherName, ProfileOtherName), TextLeaf(Xml.Email, ProfileEmail),
       TextLeaf(Xml.Phone, ProfilePhone), TextLeaf(Xml.StatusMessage, SuccessMessage)]
  }

  /** The customer-information answer written out element by element: a
      Customers wrapper around one Customer, and no merchant reference. */
  function CustomerResponseDocument(custReference: Option<string>): Xml.Node {
    Xml.Elem(Xml.CustomerInformationResponse, [
      Xml.Elem(Xml.Customers, [
        Xml.Elem(Xml.Customer, ProfileElements(custReference))])])
  }

  /** The content of the one Payment element of an acknowledgement: the log id
      unless it is null, then the status and the status message. */
  function AcknowledgementElements(paymentLogId: Option<string>): seq<Xml.Node> {
    Xml.Leaf(Xml.PaymentLogId, paymentLogId)
    + [TextLeaf(Xml.Status, SuccessStatus), TextLeaf(Xml.StatusMessage, SuccessMessage)]
  }

  /** The payment acknowledgement written out: a Payments wrapper around one
      Payment. */
  function PaymentResponseDocument(paymentLogId: Option<string>): Xml.Node {
    Xml.Elem(Xml.PaymentNotificationResponse, [
      Xml.Elem(Xml.Payments, [
        Xml.Elem(Xml.Payment, AcknowledgementElements(paymentLogId))])])
  }

  /** The profile elements, field by field. */
  lemma ProfileElementsAsLeaves(custReference: Option<string>)
    ensures ProfileElements(custReference)
            == Xml.Leaf(Xml.Status, Some(SuccessStatus)) + (Xml.Leaf(Xml.CustReference, custReference)
               + (Xml.Leaf(Xml.FirstName, Some(ProfileFirstName)) + (Xml.Leaf(Xml.LastName, Some(ProfileLastName))
               + (Xml.Leaf(Xml.OtherName, Some(ProfileOtherName)) + (Xml.Leaf(Xml.Email, Some(ProfileEmail))
               + (Xml.Leaf(Xml.Phone, Some(ProfilePhone)) + Xml.Leaf(Xml.StatusMessage, Some(SuccessMessage))))))))
  {
  }

  /** A customer carrying the fixed profile is written as the profile elements. */
  lemma ProfileOnWire(c: Customer)
    requires c.Status == Some(SuccessStatus) && c.StatusMessage == Some(SuccessMessage)
    requires c.FirstName == Some(ProfileFirstName) && c.LastName == Some(ProfileLastName)
    requires c.OtherName == Some(ProfileOtherName) && c.Email == Some(ProfileEmail)
    requires c.Phone == Some(ProfilePhone) && c.ThirdPartyCode == None
    ensures Codec.EncodeCustomer(c) == ProfileElements(c.CustReference)
  {
    Codec.CustomerHead(c);
    Codec.CustomerTail(c);
    ProfileElementsAsLeaves(c.CustReference);
  }

  /** Encoding the customer lookup's answer gives the document above. */
  lemma CustomerResponseOnWire(request: CustomerInformationRequest)
    ensures Codec.EncodeCustomerInformationResponse(ValidateCustomerReference(request))
            == CustomerResponseDocument(request.CustReference)
  {
    var response := ValidateCustomerReference(request);
    var c := response.Customer.value[0];
    assert response.Customer == Some([c]);
    Codec.CustomerInformationResponseOfOne(response, c);
    ProfileOnWire(c);
  }

  /** The acknowledgement elements, field by field. */
  lemma AcknowledgementElementsAsLeaves(paymentLogId: Option<string>)
    ensures AcknowledgementElements(paymentLogId)
            == Xml.Leaf(Xml.PaymentLogId, paymentLogId)
               + (Xml.Leaf(Xml.Status, Some(SuccessStatus)) + Xml.Leaf(Xml.StatusMessage, Some(SuccessMessage)))
  {
  }

  /** A payment carrying a log id and a success status, and nothing else, is
      written as the acknowledgement elements. */
  lemma AcknowledgementOnWire(p: Payment)
    requires p.(PaymentLogId := None, Status := None, StatusMessage := None) == NewPayment
    requires p.Status == Some(SuccessStatus) && p.StatusMessage == Some(SuccessMessage)
    ensures Codec.EncodePayment(p) == AcknowledgementElements(p.PaymentLogId)
  {
    Codec.PaymentOfThree(p);
    AcknowledgementElementsAsLeaves(p.PaymentLogId);
  }

  /** Encoding an accepted notification's acknowledgement gives the document above. */
  lemma PaymentResponseOnWire(request: PaymentNotificationRequest, parsesAsDouble: string -> bool)
    requires Accepts(request, parsesAsDouble)
    ensures Codec.EncodePaymentNotificationResponse(NotifyOfPayment(request, parsesAsDouble).value)
            == PaymentResponseDocument(request.Payment.value[0].PaymentLogId)
  {
    var response := NotifyOfPayment(request, parsesAsDouble).value;
    var p := response.Payment.value[0];
    assert response.Payment == Some([p]);
    Codec.PaymentNotificationResponseOfOne(response, p);
    AcknowledgementOnWire(p);
  }
}
