/** The values that flow between the scraper, the ledger and the mailer. */
module Slots {

  /**
    One open class as the scraper reports it: the raw availability text, the
    extracted class label, the day button's date value and the 24-hour start time.
   */
  datatype Opening = Opening(openSpots: string, level: string, date: string, time: string)

  /** The (date, time) pair by which ledger rows are invalidated. */
  datatype SlotKey = SlotKey(date: string, time: string)
}
