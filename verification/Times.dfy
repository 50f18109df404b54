/** Readings of the clock, and due times. */
module Times {
  type Time = int
}
