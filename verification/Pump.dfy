/** The fixed-window request pump: a bounded number of calls in flight against one server. */
module Pump {
  import opened Prelude

  /** What the client does on the pipes: writes a call, or reads one line. */
  datatype Event = Send(id: nat) | Receive(line: string)

  type Trace = seq<Event>

  function Sends(t: Trace): (n: nat)
    ensures n <= |t|
  {
    if t == [] then 0 else Sends(t[..|t| - 1]) + if t[|t| - 1].Send? then 1 else 0
  }

  function Reads(t: Trace): nat { |t| - Sends(t) }

  /** Calls written and not yet matched by a line read. */
  function Outstanding(t: Trace): int { Sends(t) - Reads(t) }

  /** The calls written, in order. */
  function SentIds(t: Trace): seq<nat> {
    if t == [] then [] else SentIds(t[..|t| - 1]) + if t[|t| - 1].Send? then [t[|t| - 1].id] else []
  }

  /**
   * What the window allows next: the next id while calls are left and fewer than the window are in flight; a read when
   * exactly the window is, or all the calls that are left.
   */
  predicate Allowed(t: Trace, e: Event, concurrency: nat, total: nat) {
    match e
    case Send(id) => id == Sends(t) + 1 && id <= total && Outstanding(t) < concurrency
    case Receive(_) => Reads(t) < total && Outstanding(t) == Min(concurrency, total - Reads(t))
  }

  /**
   * The window discipline of a trace: calls are numbered 1, 2, ... in the order they are written, none beyond `total`
   * and none written with `concurrency` in flight; at most `total` lines are read, and the k-th read (from 0) finds
   * min(concurrency, total - k) calls in flight.
   */
  predicate Windowed(t: Trace, concurrency: nat, total: nat) {
    t == [] || (Windowed(t[..|t| - 1], concurrency, total) && Allowed(t[..|t| - 1], t[|t| - 1], concurrency, total))
  }

  /** A windowed trace with so many calls written and lines read. */
  predicate Progress(t: Trace, concurrency: nat, total: nat, sent: nat, read: nat) {
    Windowed(t, concurrency, total) && Sends(t) == sent && Reads(t) == read
  }

  lemma ProgressSend(t: Trace, concurrency: nat, total: nat, sent: nat, read: nat)
    requires Progress(t, concurrency, total, sent, read) && sent < total && sent - read < concurrency
    ensures Progress(t + [Send(sent + 1)], concurrency, total, sent + 1, read)
  {
    var u := t + [Send(sent + 1)];
    assert u[..|u| - 1] == t;
  }

  lemma ProgressReceive(t: Trace, line: string, concurrency: nat, total: nat, sent: nat, read: nat)
    requires Progress(t, concurrency, total, sent, read)
    requires read < total && sent - read == Min(concurrency, total - read)
    ensures Progress(t + [Receive(line)], concurrency, total, sent, read + 1)
  {
    var u := t + [Receive(line)];
    assert u[..|u| - 1] == t;
  }

  /** The server process: the pipes, and what has gone through them. */
  class Server {
    var trace: Trace
    /** How many pipe operations succeed before the pipe breaks; `None` when it never does. */
    const breaksAfter: Option<nat>
    /** The lines the server writes, whatever they are and in whatever order. */
    const output: nat -> string

    constructor (breaksAfter: Option<nat>, output: nat -> string)
      ensures trace == [] && this.breaksAfter == breaksAfter && this.output == output
    {
      this.trace, this.breaksAfter, this.output := [], breaksAfter, output;
    }

    predicate Broken()
      reads this
    {
      breaksAfter.Some? && |trace| >= breaksAfter.value
    }

    method SendCall(id: nat) returns (ok: bool)
      modifies this
      ensures ok <==> !old(Broken())
      ensures trace == if ok then old(trace) + [Send(id)] else old(trace)
    {
      ok := !Broken();
      if ok {
        trace := trace + [Send(id)];
      }
    }

    method ReadLine() returns (line: Option<string>)
      modifies this
      ensures line.Some? <==> !old(Broken())
      ensures trace == if line.Some? then old(trace) + [Receive(line.value)] else old(trace)
    {
      if Broken() {
        line := None;
      } else {
        line := Some(output(Reads(trace)));
        trace := trace + [Receive(line.value)];
      }
    }

    /**
     * Keep `concurrency` calls in flight until `total` lines have been read. Whether or not the pipe breaks, everything
     * done so far obeys the window; without a break every call is written and `total` lines are read.
     */
    method Drive(concurrency: nat, total: nat) returns (ok: bool)
      requires trace == []
      modifies this
      ensures Windowed(trace, concurrency, total)
      ensures ok ==> Sends(trace) == total && Reads(trace) == total
      ensures !ok ==> Broken()
      ensures ok && concurrency == 0 && total > 0 ==> trace != [] && trace[0].Receive?
    {
      var sent := 0;
      while sent < Min(concurrency, total)
        invariant 0 <= sent <= Min(concurrency, total)
        invariant Progress(trace, concurrency, total, sent, 0)
      {
        ProgressSend(trace, concurrency, total, sent, 0);
        var written := SendCall(sent + 1);
        if !written {
          return false;
        }
        sent := sent + 1;
      }
      for k := 0 to total
        invariant sent == Min(total, Min(concurrency, total) + k)
        invariant Progress(trace, concurrency, total, sent, k)
      {
        ghost var before := trace;
        var line := ReadLine();
        if line.None? {
          return false;
        }
        ProgressReceive(before, line.value, concurrency, total, sent, k);
        if sent < total {
          ProgressSend(trace, concurrency, total, sent, k + 1);
          var written := SendCall(sent + 1);
          if !written {
            return false;
          }
          sent := sent + 1;
        }
      }
      if concurrency == 0 && total > 0 {
        ZeroWindowStartsWithARead(trace, total);
      }
      return true;
    }
  }

  // ------------------------------------------------------------------------------------------------------------
  // What the discipline gives
  // ------------------------------------------------------------------------------------------------------------

  /** Every step of a windowed trace was allowed when it was taken. */
  lemma {:induction false} WindowedAt(t: Trace, i: nat, concurrency: nat, total: nat)
    requires Windowed(t, concurrency, total) && i < |t|
    ensures Windowed(t[..i], concurrency, total) && Allowed(t[..i], t[i], concurrency, total)
  {
    var n := |t| - 1;
    if i == n {
    } else {
      WindowedAt(t[..n], i, concurrency, total);
      assert t[..n][..i] == t[..i];
    }
  }

  /** The ids written are 1, 2, ..., in order, each once. */
  lemma {:induction false} SentIdsAreConsecutive(t: Trace, concurrency: nat, total: nat)
    requires Windowed(t, concurrency, total)
    ensures SentIds(t) == seq(Sends(t), i => i + 1)
    ensures Sends(t) <= total
  {
    if t == [] {
    } else {
      var n := |t| - 1;
      SentIdsAreConsecutive(t[..n], concurrency, total);
    }
  }

  /** At no moment of a run, finished or broken, is more than the window in flight. */
  lemma WindowNeverExceeded(t: Trace, concurrency: nat, total: nat, i: nat)
    requires Windowed(t, concurrency, total) && i <= |t|
    ensures Outstanding(t[..i]) <= concurrency
  {
    if i == 0 {
    } else {
      WindowedAt(t, i - 1, concurrency, total);
      assert t[..i][..i - 1] == t[..i - 1];
    }
  }

  /** With a positive window, and only then, no read happens with nothing in flight; it finds the window at most. */
  lemma WindowNeverEmptyNorExceeded(t: Trace, concurrency: nat, total: nat, i: nat)
    requires Windowed(t, concurrency, total) && i < |t| && t[i].Receive?
    ensures concurrency > 0 <==> Outstanding(t[..i]) > 0
    ensures Outstanding(t[..i]) <= concurrency
  {
    WindowedAt(t, i, concurrency, total);
  }

  /** Every run of window zero that does anything reads first, before any call is written. */
  lemma ZeroWindowStartsWithARead(t: Trace, total: nat)
    requires Windowed(t, 0, total) && t != []
    ensures t[0].Receive? && Outstanding(t[..0]) == 0
  {
    WindowedAt(t, 0, 0, total);
  }

  /** A window of zero starts by reading with nothing in flight: a pump whose server waits for a call is stuck there. */
  lemma ZeroWindowReadsTooEarly(line: string)
    ensures var t := [Receive(line)]; Windowed(t, 0, 1) && Outstanding(t[..0]) == 0
  {
    ProgressReceive([], line, 0, 1, 0, 0);
    assert [] + [Receive(line)] == [Receive(line)];
  }

  /** A server that answers each call at most once, and only after it was written. */
  ghost predicate AnswersInTurn(t: Trace, answered: seq<nat>) {
    && |answered| == Reads(t)
    && NoDuplicates(answered)
    && forall i :: 0 <= i < |t| && t[i].Receive? ==>
         Reads(t[..i]) < |answered| && answered[Reads(t[..i])] in SentIds(t[..i])
  }

  function Elements(s: seq<nat>): set<nat> { set x | x in s }

  function Range(n: nat): set<nat> { if n == 0 then {} else Range(n - 1) + {n} }

  lemma {:induction false} RangeSpec(n: nat)
    ensures |Range(n)| == n
    ensures forall x :: x in Range(n) <==> 1 <= x <= n
  {
    if n == 0 {
    } else {
      RangeSpec(n - 1);
    }
  }

  lemma {:induction false} DistinctElements(s: seq<nat>)
    requires NoDuplicates(s)
    ensures |Elements(s)| == |s|
  {
    if s == [] {
    } else {
      var n := |s| - 1;
      DistinctElements(s[..n]);
      assert s == s[..n] + [s[n]];
      assert Elements(s) == Elements(s[..n]) + {s[n]};
    }
  }

  lemma {:induction false} ReadsSurjective(t: Trace, k: nat)
    requires k < Reads(t)
    ensures exists i :: 0 <= i < |t| && t[i].Receive? && Reads(t[..i]) == k
  {
    var n := |t| - 1;
    if t == [] {
      assert false;
    } else if t[n].Receive? && k == Reads(t[..n]) {
    } else {
      ReadsSurjective(t[..n], k);
      var i :| 0 <= i < n && t[..n][i].Receive? && Reads(t[..n][..i]) == k;
      assert t[..n][..i] == t[..i];
    }
  }

  lemma {:induction false} SentIdsGrow(t: Trace, i: nat, x: nat)
    requires i <= |t| && x in SentIds(t[..i])
    ensures x in SentIds(t)
    decreases |t| - i
  {
    if i == |t| {
      assert t[..i] == t;
    } else {
      assert t[..i + 1][..i] == t[..i];
      SentIdsGrow(t, i + 1, x);
    }
  }

  /** Whatever order the server answers in, a finished run has answered exactly the calls 1 to total, each once. */
  lemma EveryCallAnswered(t: Trace, answered: seq<nat>, concurrency: nat, total: nat)
    requires Windowed(t, concurrency, total) && Sends(t) == total && Reads(t) == total
    requires AnswersInTurn(t, answered)
    ensures |answered| == total && Elements(answered) == Range(total)
  {
    SentIdsAreConsecutive(t, concurrency, total);
    RangeSpec(total);
    forall k | 0 <= k < |answered|
      ensures answered[k] in Range(total)
    {
      ReadsSurjective(t, k);
      var i :| 0 <= i < |t| && t[i].Receive? && Reads(t[..i]) == k;
      SentIdsGrow(t, i, answered[k]);
    }
    DistinctElements(answered);
    SubsetOfSameSize(Elements(answered), Range(total));
  }

  lemma SubsetOfSameSize(a: set<nat>, b: set<nat>)
    requires a <= b && |a| == |b|
    ensures a == b
  {
    assert |b - a| == |b| - |a|;
  }
}
