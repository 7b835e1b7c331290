/**
 * A broker position as the advisor sees it: an identity shared by the orders that
 * open and close it, and whether it is still open. Its construction and its other
 * attributes belong to the broker and are not modelled.
 */
module BrokerPositions {

  datatype PositionStatus = Open | Closed

  datatype Position = Position(id: string, status: PositionStatus)
}
