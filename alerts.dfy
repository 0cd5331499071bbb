/** The message/title pair a handler passes to `showAlert`; how it is displayed is not modelled. */
module Alerts {

  datatype Alert = Alert(message: string, title: string)
}
