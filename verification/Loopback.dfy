/** SerialOutputStream.java and SerialInputStream.java at the two ends of one line. */
module Loopback {
  import opened Basics
  import InputStream
  import OutputStream

  const UNREAD := InputStream.InState([], 0, 0, None)

  /**
   End to end: if the line delivers what was sent, in order and as far as it got, then the bytes
   returned without reset, and those buffered behind them, are a prefix of the bytes written;
   all of them if the last call was a flush and the line has delivered everything.
   */
  lemma WhatIsWrittenIsRead(capacity: nat, ops: seq<OutputStream.Op>, calls: seq<InputStream.Call>)
    requires capacity > 0 && InputStream.NoReset(calls)
    requires InputStream.Run(UNREAD, calls).taken <= OutputStream.Run(capacity, OutputStream.OutState([], []), ops).sent
    ensures var sent := OutputStream.Run(capacity, OutputStream.OutState([], []), ops).sent;
      var t := InputStream.Run(UNREAD, calls);
      var read := InputStream.Returned(UNREAD, calls);
      && read + t.Unread() <= OutputStream.Accepted(ops)
      && (|ops| > 0 && ops[|ops| - 1].Flush? && t.taken == sent ==> read + t.Unread() == OutputStream.Accepted(ops))
  {
    var t := InputStream.Run(UNREAD, calls);
    OutputStream.Conservation(capacity, ops);
    InputStream.AllTaken(UNREAD, calls);
  }
}
