/** The shared LED mode: written by the button task, read by the LED task. */
module ToggleStatus {

  /** `ledToggleStatus_t`. */
  datatype Status = Toggle100ms | Toggle400ms | ToggleOff

  /** The initial value of the global `ledTogglStatus`. */
  const InitialStatus: Status := ToggleOff
}
