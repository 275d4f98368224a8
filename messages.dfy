/** The parts of a ROS 2 message that both tools look at: an optional
    `header` whose optional `stamp` is a `builtin_interfaces/Time`
    (whole seconds plus nanoseconds). A message type without a header, or
    a header without a stamp, is represented by `None` at that level. */
module Messages {

  datatype Option<+T> = None | Some(value: T)

  /** `builtin_interfaces/Time`: `sec` and `nanosec`. */
  datatype Stamp = Stamp(sec: int, nanosec: nat)

  datatype Header = Header(stamp: Option<Stamp>)

  /** A decoded message, reduced to what is read from it. */
  datatype Msg = Msg(header: Option<Header>)

  /** `msg.header.stamp`, or `None` when either attribute is missing. */
  function HeaderStamp(msg: Msg): Option<Stamp>
  {
    match msg.header
    case None => None
    case Some(h) => h.stamp
  }

  /** The stamp as one count of nanoseconds, `sec * 10^9 + nanosec`. */
  function StampNanos(s: Stamp): int
  {
    s.sec * 1_000_000_000 + s.nanosec
  }

  /** For a normalised stamp (nanosec below one second) the composed count
      loses nothing: seconds and nanoseconds are recovered from it. */
  lemma StampNanosSplits(s: Stamp)
    requires s.nanosec < 1_000_000_000
    ensures StampNanos(s) / 1_000_000_000 == s.sec
    ensures StampNanos(s) % 1_000_000_000 == s.nanosec
  {
    var n := StampNanos(s);
    assert n == s.sec * 1_000_000_000 + s.nanosec;
    assert 0 <= s.nanosec < 1_000_000_000;
  }
}
