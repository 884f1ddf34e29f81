/** The message records of the bills-payment protocol: two requests, two
    responses and the records nested in them. Every Java `String` field is an
    `Option<string>` (None is null) and every Java `List` field an
    `Option<seq<_>>` (None is a null list, which is not the same as an empty
    one). Field names and field order are those of the Java declarations; the
    order matters because it is the order of the elements on the wire. For
    `PaymentNotificationRequest`, whose class declares no field access, the
    wire order is not fixed by the annotations, and declaration order is used
    as a convention.
 */
module Schema {
  import opened Wrappers

  datatype CustomerInformationRequest = CustomerInformationRequest(
    MerchantReference: Option<string>,
    CustReference: Option<string>,
    ServiceUsername: Option<string>,
    ServicePassword: Option<string>,
    FtpUsername: Option<string>,
    FtpPassword: Option<string>)

  /** One customer profile of a customer-information response. */
  datatype Customer = Customer(
    Status: Option<string>,
    CustReference: Option<string>,
    FirstName: Option<string>,
    LastName: Option<string>,
    OtherName: Option<string>,
    Email: Option<string>,
    Phone: Option<string>,
    ThirdPartyCode: Option<string>,
    StatusMessage: Option<string>)

  datatype CustomerInformationResponse = CustomerInformationResponse(
    MerchantReference: Option<string>,
    Customer: Option<seq<Customer>>)

  datatype PaymentItem = PaymentItem(
    ItemName: Option<string>,
    ItemCode: Option<string>,
    ItemAmount: Option<string>,
    LeadBankCode: Option<string>,
    LeadBankCbnCode: Option<string>,
    LeadBankName: Option<string>,
    CategoryCode: Option<string>,
    CategoryName: Option<string>,
    ItemQuantity: Option<string>)

  /** A settled transaction; the same record serves requests and acknowledgements. */
  datatype Payment = Payment(
    ProductGroupCode: Option<string>,
    PaymentLogId: Option<string>,
    CustReference: Option<string>,
    AlternateCustReference: Option<string>,
    Amount: Option<string>,
    PaymentStatus: Option<string>,
    PaymentMethod: Option<string>,
    PaymentReference: Option<string>,
    TerminalId: Option<string>,
    ChannelName: Option<string>,
    Location: Option<string>,
    IsReversal: Option<string>,
    PaymentDate: Option<string>,
    SettlementDate: Option<string>,
    InstitutionId: Option<string>,
    InstitutionName: Option<string>,
    BranchName: Option<string>,
    BankName: Option<string>,
    FeeName: Option<string>,
    CustomerName: Option<string>,
    OtherCustomerInfo: Option<string>,
    ReceiptNo: Option<string>,
    CollectionsAccount: Option<string>,
    ThirdPartyCode: Option<string>,
    PaymentItem: Option<seq<PaymentItem>>,
    BankCode: Option<string>,
    CustomerAddress: Option<string>,
    CustomerPhoneNumber: Option<string>,
    DepositorName: Option<string>,
    DepositSlipNumber: Option<string>,
    PaymentCurrency: Option<string>,
    OriginalPaymentLogId: Option<string>,
    OriginalPaymentReference: Option<string>,
    Teller: Option<string>,
    Status: Option<string>,
    StatusMessage: Option<string>)

  datatype PaymentNotificationRequest = PaymentNotificationRequest(
    RouteId: Option<string>,
    ServiceUrl: Option<string>,
    ServiceUsername: Option<string>,
    ServicePassword: Option<string>,
    FtpUrl: Option<string>,
    FtpUsername: Option<string>,
    FtpPassword: Option<string>,
    Payment: Option<seq<Payment>>)

  datatype PaymentNotificationResponse = PaymentNotificationResponse(
    Payment: Option<seq<Payment>>)

  /** The literal default of `Customer.CustReference` in the Java record. */
  const PlaceholderCustReference: string := "4565"

  /** What the Java no-argument constructors produce: every field null, except
      the customer reference placeholder. */
  const NewCustomer: Customer :=
    Customer(None, Some(PlaceholderCustReference), None, None, None, None, None, None, None)

  const NewCustomerInformationResponse: CustomerInformationResponse :=
    CustomerInformationResponse(None, None)

  const NewPayment: Payment :=
    Payment(None, None, None, None, None, None, None, None, None, None, None, None,
            None, None, None, None, None, None, None, None, None, None, None, None,
            None,
            None, None, None, None, None, None, None, None, None, None, None)

  const NewPaymentNotificationResponse: PaymentNotificationResponse :=
    PaymentNotificationResponse(None)
}
