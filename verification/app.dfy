/** The endpoint `/isw-bills-payment`: one POST handler taking the raw XML body
    and answering with an XML document, or failing (the Java code throws, and
    the web framework turns that into an error reply).

    Turning the body text into a request object is JAXB's unmarshaller, which
    this model does not contain: it is the parameter pair `unmarshalCustomer` /
    `unmarshalPayment`, and `Error` stands for any exception it throws. The
    answer is the element tree that JAXB's marshaller writes for the response
    object, as `Codec` lays it out.
 */
module BillsPayment {
  import opened Wrappers
  import opened Schema
  import Xml
  import Codec
  import opened Dispatch
  import opened Handlers

  /** Routes the body by the names it mentions, decodes it as the request
      that name announces, runs the matching handler and encodes the answer. */
  function PayBills(body: string,
                    unmarshalCustomer: string -> Result<CustomerInformationRequest>,
                    unmarshalPayment: string -> Result<PaymentNotificationRequest>,
                    parsesAsDouble: string -> bool): (r: Result<Xml.Node>)
    // a body mentioning neither request is refused
    ensures !OccursIn(CustomerMarker, body) && !OccursIn(PaymentMarker, body) ==> r == Error
    // a body mentioning a customer-information request is a customer lookup,
    // which fails only when the body does not unmarshal
    ensures OccursIn(CustomerMarker, body) ==>
      && (r.Ok? <==> unmarshalCustomer(body).Ok?)
      && (r.Ok? ==> r.value == CustomerResponseDocument(unmarshalCustomer(body).value.CustReference))
    // otherwise a body mentioning a payment notification is one, which fails
    // when the body does not unmarshal or the handler refuses the request
    ensures !OccursIn(CustomerMarker, body) && OccursIn(PaymentMarker, body) ==>
      && (r.Ok? <==> unmarshalPayment(body).Ok? && Accepts(unmarshalPayment(body).value, parsesAsDouble))
      && (r.Ok? ==> r.value == PaymentResponseDocument(unmarshalPayment(body).value.Payment.value[0].PaymentLogId))
  {
    match Classify(body)
    case CustomerInfo =>
      (match unmarshalCustomer(body)
       case Error => Error
       case Ok(request) =>
         CustomerResponseOnWire(request);
         Ok(Codec.EncodeCustomerInformationResponse(ValidateCustomerReference(request))))
    case PaymentNotification =>
      (match unmarshalPayment(body)
       case Error => Error
       case Ok(request) =>
         (match NotifyOfPayment(request, parsesAsDouble)
          case Error => Error
          case Ok(response) =>
            PaymentResponseOnWire(request, parsesAsDouble);
            Ok(Codec.EncodePaymentNotificationResponse(response))))
    case Invalid => Error
  }

  /** A customer-lookup answer reads back, under the strict reader, as exactly
      the response object the handler built. */
  lemma CustomerAnswerReadsBack(body: string,
                                unmarshalCustomer: string -> Result<CustomerInformationRequest>,
                                unmarshalPayment: string -> Result<PaymentNotificationRequest>,
                                parsesAsDouble: string -> bool)
    requires OccursIn(CustomerMarker, body)
    requires PayBills(body, unmarshalCustomer, unmarshalPayment, parsesAsDouble).Ok?
    ensures Codec.DecodeCustomerInformationResponse(PayBills(body, unmarshalCustomer, unmarshalPayment, parsesAsDouble).value)
            == Some(ValidateCustomerReference(unmarshalCustomer(body).value))
  {
    var request := unmarshalCustomer(body).value;
    CustomerResponseOnWire(request);
    Codec.CustomerInformationResponseCodec(CustomerResponseDocument(request.CustReference), ValidateCustomerReference(request));
  }

  /** A payment acknowledgement reads back, under the strict reader, as exactly
      the response object the handler built. */
  lemma PaymentAnswerReadsBack(body: string,
                               unmarshalCustomer: string -> Result<CustomerInformationRequest>,
                               unmarshalPayment: string -> Result<PaymentNotificationRequest>,
                               parsesAsDouble: string -> bool)
    requires !OccursIn(CustomerMarker, body) && OccursIn(PaymentMarker, body)
    requires PayBills(body, unmarshalCustomer, unmarshalPayment, parsesAsDouble).Ok?
    ensures Codec.DecodePaymentNotificationResponse(PayBills(body, unmarshalCustomer, unmarshalPayment, parsesAsDouble).value)
            == Some(NotifyOfPayment(unmarshalPayment(body).value, parsesAsDouble).value)
  {
    var request := unmarshalPayment(body).value;
    PaymentResponseOnWire(request, parsesAsDouble);
    Codec.PaymentNotificationResponseCodec(PaymentResponseDocument(request.Payment.value[0].PaymentLogId),
                                           NotifyOfPayment(request, parsesAsDouble).value);
  }

  /** Two customer-lookup bodies that unmarshal get the same answer if and only
      if their customer references are equal. */
  lemma CustomerAnswerDependsOnReferenceOnly(a: string, b: string,
                                             unmarshalCustomer: string -> Result<CustomerInformationRequest>,
                                             unmarshalPayment: string -> Result<PaymentNotificationRequest>,
                                             parsesAsDouble: string -> bool)
    requires OccursIn(CustomerMarker, a) && OccursIn(CustomerMarker, b)
    requires unmarshalCustomer(a).Ok? && unmarshalCustomer(b).Ok?
    ensures PayBills(a, unmarshalCustomer, unmarshalPayment, parsesAsDouble) == PayBills(b, unmarshalCustomer, unmarshalPayment, parsesAsDouble)
            <==> unmarshalCustomer(a).value.CustReference == unmarshalCustomer(b).value.CustReference
  {
    var ra, rb := unmarshalCustomer(a).value, unmarshalCustomer(b).value;
    if PayBills(a, unmarshalCustomer, unmarshalPayment, parsesAsDouble) == PayBills(b, unmarshalCustomer, unmarshalPayment, parsesAsDouble) {
      CustomerAnswerReadsBack(a, unmarshalCustomer, unmarshalPayment, parsesAsDouble);
      CustomerAnswerReadsBack(b, unmarshalCustomer, unmarshalPayment, parsesAsDouble);
      CustomerResponseDependsOnReferenceOnly(ra, rb);
    }
  }
}
