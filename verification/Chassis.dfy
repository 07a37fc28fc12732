/** Limits of the chassis that several tables share. */
module Chassis {
  const MAX_SLOT_NUM: nat := 16
}
