/** The rows of the four input tables the metrics read, reduced to the columns
    they use.  Amounts are integers in the smallest currency unit (cents). */
module Tables {
  import opened Calendar

  type CustomerId = string
  type PaymentStatus = string

  const Paid: PaymentStatus := "paid"

  datatype Transaction = Transaction(
    transactionId: string,
    customerId: CustomerId,
    createdAt: Timestamp,
    totalAmount: int,
    paymentStatus: PaymentStatus)

  datatype Session = Session(customerId: CustomerId, sessionStart: Timestamp, sessionEnd: Timestamp)

  datatype Customer = Customer(customerId: CustomerId, signupDate: Timestamp)

  datatype SupportTicket = SupportTicket(customerId: CustomerId, createdAt: Timestamp, resolvedAt: Timestamp)

  predicate IsPaid(t: Transaction) {
    t.paymentStatus == Paid
  }
}
