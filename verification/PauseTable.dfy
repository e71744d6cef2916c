// The three updates the engine makes to its tables under its mutex. They are
// generic in what identifies a flow and a channel, so that the Engine class and
// the interleaving model of PauseMachine share one definition.
module PauseTable {
  import opened Common
  import opened Tokens

  datatype Status = Active | Pending | Complete | Failed

  // The operator's verdict on a paused message. No edited body means "forward
  // the original unchanged", which an empty edited body does not.
  datatype Resolution = Resolution(drop: bool, edited: Option<string>)

  // What the pausing goroutine hands back to the protocol handler.
  datatype Outcome = Dropped | Forwarded(edited: Option<string>)

  function CountOf<F>(counts: map<F, int>, f: F): int {
    if f in counts then counts[f] else 0
  }

  function Incremented<F>(counts: map<F, int>, f: F): map<F, int> {
    counts[f := CountOf(counts, f) + 1]
  }

  // A flow whose last pause ends leaves the table altogether.
  function Decremented<F>(counts: map<F, int>, f: F): map<F, int> {
    if CountOf(counts, f) == 1 then counts - {f} else counts[f := CountOf(counts, f) - 1]
  }

  // Deferred cleanup: the entry goes only if it is still this pause's own.
  function WithoutOwn<C(==)>(pending: map<Token, C>, token: Token, channel: C): map<Token, C> {
    if token in pending && pending[token] == channel then pending - {token} else pending
  }
}
