/** The result of a face library call, as far as the modelled calls go. */
module Errcodes {
  datatype Errcode = Success | NotAvailable | NANDCommandfail | Loadfail | Fatal | Busy | Broken | NoData | WrongParam
}
