/** The GPIO driver and the scheduler's delay, seen from the two tasks:
    a pin level that is read or written, and the actions a task emits.
    The driver itself (GPIO_read, GPIO_write) is not part of this model. */
module Gpio {

  /** `pinState_t`: PIN_IS_LOW or PIN_IS_HIGH. */
  datatype PinState = Low | High

  /** An effect a task loop performs on the outside world. */
  datatype Action =
    | Write(level: PinState)   // GPIO_write on the task's pin
    | Delay(ms: nat)           // vTaskDelay(ms)
}
