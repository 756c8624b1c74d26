/** Types that several parts of the kernel share. */
module Common {

  datatype Option<+T> = None | Some(value: T)

  /** Whether interrupts are enabled. */
  datatype IntStatus = IntOff | IntOn
}
