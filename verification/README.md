# Bills-payment endpoint, modelled in Dafny

The system is a single HTTP endpoint, `/isw-bills-payment`, that speaks a fixed
XML protocol between a billing aggregator and a biller. One POST handler
(`payBills`) takes the raw XML body and answers one of two requests:

- a **customer-information request** gets a customer profile back;
- a **payment notification** gets an acknowledgement of its first payment.

The handler tells the two apart by looking for the root element's name anywhere
in the body text. The customer lookup is tried first. A body that names neither
request is refused with an exception. The body is turned into request objects by
JAXB, and the answer objects are written back out by JAXB.

The model has seven modules, one file each:

- `wrappers.dfy` (`Wrappers`): `Option` and `Result`.
- `schema.dfy` (`Schema`): the seven message records, with their fields in
  declaration order. The records are two requests, two responses, `Customer`,
  `Payment` and `PaymentItem`. A Java `String` field is an `Option<string>`,
  where `None` stands for `null`. A Java `List` field is an `Option<seq<_>>`,
  because a null list and an empty list are written differently. The module
  also has the values the no-argument constructors produce, including the
  `"4565"` default of `Customer.CustReference`.
- `xml.dfy` (`Xml`): an element tree with the exact wire names, and JAXB's two
  layout rules for these records:
  - a scalar field becomes one element, and a null field becomes nothing;
  - an `@XmlElementWrapper` list becomes one container holding one item element
    per entry. A null list becomes nothing, and an empty list becomes an empty
    container.

  The module has generic readers for these layouts and the lemmas that they
  invert the writers. It also proves where a list's container sits and that
  elements come in declaration order.
- `codec.dfy` (`Codec`): for each record, its element order, its encoder
  `Encode*` and the strict reader `Decode*` of exactly that layout. Each record
  has a lemma that a tree decodes to a record if and only if the tree is that
  record's encoding. Lists also have their container lemmas.
- `dispatch.dfy` (`Dispatch`): the substring test and the three-way
  classification of a body.
- `handlers.dfy` (`Handlers`): the two handlers on decoded messages. The module
  also has the exact element trees their answers encode to.
- `app.dfy` (`BillsPayment`): `PayBills`, the endpoint from body to answer tree.

All citations below are lines of
`src/main/java/com/interswitch/bills_payment/BillsPaymentApplication.java`.

## Model

| member | source | states |
|---|---|---|
| Dispatch.Contains | src/main/java/com/interswitch/bills_payment/BillsPaymentApplication.java:36-38 | The substring search returns true exactly when the name occurs somewhere in the body at some start index. This is the meaning of `String.contains`. |
| Dispatch.Classify | src/main/java/com/interswitch/bills_payment/BillsPaymentApplication.java:35-43 | A body is a customer lookup iff it mentions `CustomerInformationRequest`. It is a payment notification iff it does not mention that name but mentions `PaymentNotificationRequest`. It is invalid iff it mentions neither. |
| Dispatch.CustomerMarkerWins | src/main/java/com/interswitch/bills_payment/BillsPaymentApplication.java:36-39 | A body that mentions both names is handled as a customer lookup. |
| Dispatch.MarkersAreRequestRoots | src/main/java/com/interswitch/bills_payment/BillsPaymentApplication.java:36-38 | The two strings searched for are exactly the root element names of the customer-information request and the payment notification. |
| Dispatch.ClassifyExtended | src/main/java/com/interswitch/bills_payment/BillsPaymentApplication.java:36-42 | Surrounding a body with any text keeps a customer lookup a customer lookup. It never makes a recognised body invalid. |
| BillsPayment.PayBills | src/main/java/com/interswitch/bills_payment/BillsPaymentApplication.java:34-43 | A body naming neither request fails. A body naming the customer request fails exactly when it does not unmarshal. Otherwise it answers the customer document echoing the unmarshalled reference. A body naming only the payment notification succeeds exactly when it unmarshals and the handler accepts it. It then answers the acknowledgement document carrying the first payment's log id. |
| BillsPayment.CustomerAnswerReadsBack | src/main/java/com/interswitch/bills_payment/BillsPaymentApplication.java:47-66 | The tree the endpoint writes for a customer lookup decodes back to exactly the response object the handler built. |
| BillsPayment.PaymentAnswerReadsBack | src/main/java/com/interswitch/bills_payment/BillsPaymentApplication.java:69-87 | The tree the endpoint writes for a payment notification decodes back to exactly the response object the handler built. |
| BillsPayment.CustomerAnswerDependsOnReferenceOnly | src/main/java/com/interswitch/bills_payment/BillsPaymentApplication.java:47-66 | Two customer-lookup bodies that both unmarshal get the same answer if and only if their customer references are equal. |
| Handlers.ValidateCustomerReference | src/main/java/com/interswitch/bills_payment/BillsPaymentApplication.java:47-66 | The response has no merchant reference and exactly one customer. That customer echoes the requested reference, which replaces the `"4565"` default and stays null if the request's was null. It carries status `"0"`, message `"Successful"`, the fixed John/Doe/Doe profile, that email and that phone, and no third-party code. |
| Handlers.CustomerResponseDependsOnReferenceOnly | src/main/java/com/interswitch/bills_payment/BillsPaymentApplication.java:48-49 | Two requests get the same response if and only if their customer references are equal. No other request field matters. |
| Handlers.NotifyOfPayment | src/main/java/com/interswitch/bills_payment/BillsPaymentApplication.java:69-87 | The handler succeeds iff the payment list is non-null and non-empty and the first payment's amount is non-null and parses as a double. On success it answers one payment that carries the first payment's log id, status `"0"` and message `"Successful"`, with every other field null. |
| Handlers.OnlyFirstPaymentMatters | src/main/java/com/interswitch/bills_payment/BillsPaymentApplication.java:71-74 | Two non-empty notifications whose first payments agree on log id and amount get the same outcome. Later payments and other fields are ignored. |
| Handlers.ProfileOnWire | src/main/java/com/interswitch/bills_payment/BillsPaymentApplication.java:138-148 | A customer with the fixed profile and no third-party code is written as Status, CustReference (omitted when null), FirstName, LastName, OtherName, Email, Phone and StatusMessage, in that order. |
| Handlers.CustomerResponseOnWire | src/main/java/com/interswitch/bills_payment/BillsPaymentApplication.java:53-65 | The lookup's answer is written as `CustomerInformationResponse` holding one `Customers` wrapper around one `Customer` with those elements. No `MerchantReference` element appears. |
| Handlers.AcknowledgementOnWire | src/main/java/com/interswitch/bills_payment/BillsPaymentApplication.java:80-83 | A payment that is null but for its log id, with status `"0"` and message `"Successful"`, is written as PaymentLogId (omitted when null), Status and StatusMessage only. |
| Handlers.PaymentResponseOnWire | src/main/java/com/interswitch/bills_payment/BillsPaymentApplication.java:79-86 | An accepted notification's answer is written as `PaymentNotificationResponse` holding one `Payments` wrapper around one `Payment` with those three elements. |
| Codec.CustomerInformationRequestCodec | src/main/java/com/interswitch/bills_payment/BillsPaymentApplication.java:112-123 | A tree decodes to a request if and only if it is that request's encoding: a `CustomerInformationRequest` root with its non-null fields in declaration order. |
| Codec.CustomerInformationRequestInOrder | src/main/java/com/interswitch/bills_payment/BillsPaymentApplication.java:117-122 | The elements of an encoded request follow the field declaration order. |
| Codec.CustomerCodec | src/main/java/com/interswitch/bills_payment/BillsPaymentApplication.java:135-149 | A customer's element sequence decodes to a customer if and only if it is that customer's encoding. |
| Codec.CustomerInOrder | src/main/java/com/interswitch/bills_payment/BillsPaymentApplication.java:140-148 | A customer's elements follow the field declaration order. |
| Codec.CustomerInformationResponseShape | src/main/java/com/interswitch/bills_payment/BillsPaymentApplication.java:131-133 | The customer list sits in exactly one `Customers` container when non-null and in none when null. That container holds one `Customer` element per entry, in list order. All elements follow declaration order. |
| Codec.CustomerInformationResponseCodec | src/main/java/com/interswitch/bills_payment/BillsPaymentApplication.java:125-150 | A tree decodes to a customer-information response if and only if it is that response's encoding. |
| Codec.PaymentItemCodec | src/main/java/com/interswitch/bills_payment/BillsPaymentApplication.java:235-245 | An item's element sequence decodes to an item if and only if it is that item's encoding. |
| Codec.PaymentItemInOrder | src/main/java/com/interswitch/bills_payment/BillsPaymentApplication.java:236-244 | An item's elements follow the field declaration order. |
| Codec.PaymentShape | src/main/java/com/interswitch/bills_payment/BillsPaymentApplication.java:217-220 | The item list sits in exactly one `PaymentItems` container between ThirdPartyCode and BankCode, or is absent when null. The container holds one `PaymentItem` per entry. All elements follow declaration order. |
| Codec.PaymentCodec | src/main/java/com/interswitch/bills_payment/BillsPaymentApplication.java:193-230 | A payment's element sequence decodes to a payment if and only if it is that payment's encoding. |
| Codec.PaymentOfThree | src/main/java/com/interswitch/bills_payment/BillsPaymentApplication.java:194-230 | A payment that is null but for log id, status and message is written as just those three fields. |
| Codec.PaymentNotificationRequestShape | src/main/java/com/interswitch/bills_payment/BillsPaymentApplication.java:165-166 | The payment list sits in exactly one `Payments` container when non-null, holding one `Payment` per entry. The elements follow the declared names and order that `Codec` adopts for this record. |
| Codec.PaymentNotificationRequestCodec | src/main/java/com/interswitch/bills_payment/BillsPaymentApplication.java:152-167 | A tree decodes to a notification if and only if it is that notification's encoding. |
| Codec.PaymentNotificationResponseShape | src/main/java/com/interswitch/bills_payment/BillsPaymentApplication.java:186-187 | The acknowledged payments sit in exactly one `Payments` container when non-null, holding one `Payment` per entry. |
| Codec.PaymentNotificationResponseCodec | src/main/java/com/interswitch/bills_payment/BillsPaymentApplication.java:170-188 | A tree decodes to an acknowledgement if and only if it is that acknowledgement's encoding. |
| Xml.FieldsOfNulls | src/main/java/com/interswitch/bills_payment/BillsPaymentApplication.java:140-148 | A run of null fields writes no element at all. |
| Xml.ReadFieldsOfFields | src/main/java/com/interswitch/bills_payment/BillsPaymentApplication.java:117-122 | Reading a run of distinct field names back from their written elements recovers every value, nulls included, provided what follows does not start with one of those names. What follows is then left untouched. |
| Xml.ReadRecordOfRecord | src/main/java/com/interswitch/bills_payment/BillsPaymentApplication.java:218-219 | For any record laid out as fields, one wrapped list and more fields, with distinct names, and provided the item reader inverts the item writer, reading the layout back recovers the fields and the list, null or not. |
| Xml.RecordOfReadRecord | src/main/java/com/interswitch/bills_payment/BillsPaymentApplication.java:218-219 | Provided the item writer re-encodes whatever the item reader accepts, whatever the strict record reader accepts is exactly the layout of what it returns. |
| Xml.RecordHoldsList | src/main/java/com/interswitch/bills_payment/BillsPaymentApplication.java:132-133 | When no scalar field has the container's name, a wrapped list's container appears once when the list is non-null and never when it is null. It holds the entries one item each, in order. |
| Xml.RecordInOrder | src/main/java/com/interswitch/bills_payment/BillsPaymentApplication.java:193-230 | A record's elements, the container included, come in strictly increasing declaration position. |

## Left out

- Spring Boot: the application start-up (lines 30-32), the route and its media
  types, and how an exception becomes an HTTP error reply.
- XML text. The model stops at the element tree: escaping, the XML declaration,
  namespaces and character encoding are not modelled.
- JAXB's unmarshaller (`xmlToObject`, lines 101-109). It is a parameter of
  `PayBills`, and `Error` stands for any exception it throws. `Codec.Decode*` is
  not a model of it. It is the strict inverse of the encoder, used to state the
  round trips. JAXB itself is more lenient: it skips unknown elements and
  accepts fields in any order.
- `PaymentNotificationRequest` (lines 152-167) lacks
  `@XmlAccessorType(FIELD)`, unlike the other records. Under JAXB's default
  access the annotated list field (lines 165-166) is still bound as the
  `Payments` wrapper of `Payment` items, but the unannotated scalar fields
  (lines 158-164) are bound through the Lombok getters, and the getter pair
  `getPayment`/`setPayment` may add a second, unwrapped property. The exact
  element names of this request therefore cannot be read off the source
  alone, and neither can their order: JAXB's reference implementation may
  place the field-bound `Payments` container before the getter-bound
  scalars. `Codec` uses the declared names in declaration order for this
  record, like every other record, as a convention. The endpoint only reads
  this request through the unmarshalling parameter, so no property of the
  endpoint depends on that choice.
- Marshalling failures (`objectToXml`, lines 89-99): the model treats writing
  an answer as total.
- `Double.parseDouble` (line 74) is the parameter `parsesAsDouble`. The parsed
  value is never used, so only whether parsing succeeds matters.
- Handlers.NotifyOfPayment: the null list and the null amount fail with
  `NullPointerException`, the empty list with `IndexOutOfBoundsException` and
  the non-numeric amount with `NumberFormatException`. The model has a single
  `Error` for all of them.
- BillsPayment.PayBills: "Invalid request", an unmarshalling exception and a
  handler failure are all one `Error`.
- The `custReference` read at line 72 is never used, so the model does not read
  it.
- The customer lookup and value-issuance back ends exist only as comments
  (lines 51, 76-77): there is nothing to model. The profile is the fixed one the
  code writes.

## Notes on the source

- The comment at lines 176-184 shows an acknowledgement with the status message
  `Payment Received`. The code (line 83) sets `Successful`, and the model
  follows the code.
- A caller might expect a missing reference to be rejected, or a failed
  lookup to carry a non-zero status. The code does neither: any reference,
  null included, is echoed with status `"0"`. The model follows the code.
- The `"4565"` default of `Customer.CustReference` (line 141) never reaches an
  answer, because the handler always overwrites it with the request's
  reference. It is overwritten even with null.
