/** The writer/reader phaser of `hdr_writer_reader_phaser.c`: three 64-bit epoch counters on which
    writers and the flipping reader act with sequentially consistent atomic operations.
    `Epochs` is the value of the counters, the functions are one atomic operation each, and the
    class performs them in place. */
module Phaser {
  import opened Bits

  datatype Epochs = Epochs(startEpoch: int, evenEndEpoch: int, oddEndEpoch: int)

  /** Two's complement wrap-around of a 64-bit atomic addition. */
  function Wrap64(x: int): int {
    if INT64_MIN <= x <= INT64_MAX then x else (x - INT64_MIN) % TWO_64 + INT64_MIN
  }

  /** First value of the counters of a phase; the sign tells the phases apart. */
  function Base(odd: bool): int {
    if odd then INT64_MIN else 0
  }

  function Odd(epoch: int): bool {
    epoch < 0
  }

  function End(e: Epochs, odd: bool): int {
    if odd then e.oddEndEpoch else e.evenEndEpoch
  }

  function SetEnd(e: Epochs, odd: bool, value: int): Epochs {
    if odd then e.(oddEndEpoch := value) else e.(evenEndEpoch := value)
  }

  function Entered(e: Epochs): Epochs {
    e.(startEpoch := Wrap64(e.startEpoch + 1))
  }

  function Exited(e: Epochs, critical: int): Epochs {
    SetEnd(e, Odd(critical), Wrap64(End(e, Odd(critical)) + 1))
  }

  const INITIAL := Epochs(0, 0, INT64_MIN)

  class WriterReaderPhaser {
    var startEpoch: int
    var evenEndEpoch: int
    var oddEndEpoch: int

    ghost function State(): Epochs
      reads this
    {
      Epochs(startEpoch, evenEndEpoch, oddEndEpoch)
    }

    constructor ()
      ensures State() == INITIAL
    {
      startEpoch, evenEndEpoch, oddEndEpoch := 0, 0, INT64_MIN;
    }

    method WriterEnter() returns (critical: int)
      modifies this
      ensures State() == Entered(old(State()))
      ensures critical == startEpoch
    {
      startEpoch := Wrap64(startEpoch + 1);
      critical := startEpoch;
    }

    method WriterExit(critical: int)
      modifies this
      ensures State() == Exited(old(State()), critical)
    {
      if critical < 0 {
        oddEndEpoch := Wrap64(oddEndEpoch + 1);
      } else {
        evenEndEpoch := Wrap64(evenEndEpoch + 1);
      }
    }

    method GetStartEpoch() returns (epoch: int)
      ensures epoch == State().startEpoch
    {
      epoch := startEpoch;
    }

    method GetEndEpoch(even: bool) returns (epoch: int)
      ensures epoch == End(State(), !even)
    {
      epoch := if even then evenEndEpoch else oddEndEpoch;
    }

    method SetEndEpoch(even: bool, value: int)
      modifies this
      ensures State() == SetEnd(old(State()), !even, value)
    {
      if even {
        evenEndEpoch := value;
      } else {
        oddEndEpoch := value;
      }
    }

    method ResetStartEpoch(initial: int) returns (previous: int)
      modifies this
      ensures State() == old(State()).(startEpoch := initial)
      ensures previous == old(startEpoch)
    {
      previous := startEpoch;
      startEpoch := initial;
    }
  }
}
