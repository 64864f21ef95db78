/**
 * The response correlator of `DigoleDisplay.doCheck` as functions: how the
 * drain fills `_inBuffer`, and how the walk over `_waitBuffer` (a Python
 * list that shrinks while it is being iterated) matches values to requests.
 */
module Correlator {
  import opened Wrappers
  import opened Encoding

  /** `EventCode`: CLICK = 1, ANALOG = 2, TEMP = 3, VOLTAGE = 4. */
  datatype EventKind = Click | Analog | Temp | Voltage

  /** How many two-byte values the display answers a read of this kind with. */
  function Arity(kind: EventKind): nat
  {
    if kind == Click then 2 else 1
  }

  /** A `_waitBuffer` entry `(event_code, argCount, timeStamp)`. */
  datatype Pending = Pending(kind: EventKind, arity: nat, stamp: int)

  /** Every entry carries the arity of its kind, as the read operations register them. */
  predicate WellFormed(wait: seq<Pending>)
  {
    forall k :: 0 <= k < |wait| ==> wait[k].arity == Arity(wait[k].kind)
  }

  /** Milliseconds after which a pending read is given up. */
  const Timeout := 2000

  predicate Expired(p: Pending, now: int)
  {
    now - p.stamp > Timeout
  }

  /** An entry of the list `doCheck` returns: `(event_code, args)`, where `args` is `[derived] + raw` when there is a derived reading. */
  datatype Event = Event(kind: EventKind, derived: Option<real>, raw: seq<int>)

  /** The voltage on the AUX pin: `d * 2.5 / 4096`. */
  function AnalogVolts(d: int): (v: real)
    ensures 0 <= d <= 4096 ==> 0.0 <= v <= 2.5
    ensures d == 4096 ==> v == 2.5
  {
    d as real * 2.5 / 4096.0
  }

  /** The chip temperature: `(653 - d * 2500 / 4096) / 2.1`. */
  function TempCelsius(d: int): (t: real)
    ensures d == 0 ==> t == 653.0 / 2.1
  {
    (653.0 - d as real * 2500.0 / 4096.0) / 2.1
  }

  /** What `doCheck` makes of a matched entry's raw values; `None` when the event is rejected. */
  function Transform(kind: EventKind, args: seq<int>): Option<Event>
    requires |args| == Arity(kind)
  {
    match kind
    case Click => if args[0] > 1000 then None else Some(Event(Click, None, args))
    case Analog => Some(Event(Analog, Some(AnalogVolts(args[0])), args))
    case Temp => Some(Event(Temp, Some(TempCelsius(args[0])), args))
    case Voltage => Some(Event(Voltage, None, args))
  }

  // ---------------------------------------------------------------------------
  // The drain
  // ---------------------------------------------------------------------------

  /** What the bus answers one `_readInt` with. */
  datatype Reply =
    | Data(hi: byte, lo: byte)   // two bytes, most significant first
    | TimedOut                   // an OSError naming ETIMEDOUT: no data yet
    | Fault                      // any other OSError

  /** The values one drain appends to `_inBuffer`, and whether it ended by raising. */
  datatype Drained = Drained(values: seq<int>, fault: bool)

  /**
   * `for _ in _waitBuffer: _inBuffer += _readInt()` with `n` entries waiting,
   * the bus answering with `replies` in turn (a bus with no more replies
   * answers with a timeout).
   */
  function Drain(replies: seq<Reply>, n: nat): Drained
  {
    if n == 0 || replies == [] then Drained([], false)
    else
      match replies[0]
      case Data(hi, lo) =>
        var rest := Drain(replies[1..], n - 1);
        Drained([BigEndian(hi, lo)] + rest.values, rest.fault)
      case TimedOut => Drained([], false)
      case Fault => Drained([], true)
  }

  /**
   * A drain reads at most one value per waiting entry; it keeps the data
   * replies in arrival order, each as a value in 0..65535; it stops silently
   * at a timeout and by raising at any other bus error.
   */
  lemma {:induction false} DrainValues(replies: seq<Reply>, n: nat)
    ensures var d := Drain(replies, n);
      && |d.values| <= n && |d.values| <= |replies|
      && (forall k :: 0 <= k < |d.values| ==>
            replies[k].Data? && d.values[k] == BigEndian(replies[k].hi, replies[k].lo)
            && 0 <= d.values[k] < 0x1_0000)
      && (d.fault <==> |d.values| < n && |d.values| < |replies| && replies[|d.values|].Fault?)
      && (!d.fault ==> |d.values| == n || |d.values| == |replies| || replies[|d.values|].TimedOut?)
  {
    if n > 0 && replies != [] && replies[0].Data? {
      DrainValues(replies[1..], n - 1);
      var d, rest := Drain(replies, n), Drain(replies[1..], n - 1);
      forall k | 1 <= k < |d.values|
        ensures replies[k].Data? && d.values[k] == BigEndian(replies[k].hi, replies[k].lo)
      {
        assert d.values[k] == rest.values[k - 1];
      }
      if |d.values| < |replies| {
        assert replies[|d.values|] == replies[1..][|rest.values|];
      }
    }
  }

  // ---------------------------------------------------------------------------
  // The walk
  // ---------------------------------------------------------------------------

  /** The two buffers after a walk, the events it produced, and whether it stopped for want of values. */
  datatype WalkResult = WalkResult(wait: seq<Pending>, inBuf: seq<int>, events: seq<Event>, stalled: bool)

  /**
   * `for event_code, argCount, timeStamp in _waitBuffer: ...` resumed at list
   * index `i`. Python's list iterator fetches `wait[i]` and moves on to
   * index `i + 1` whatever the body does to the list, so `pop(0)` on an
   * expired entry drops the head and makes the loop pass over the entry
   * after the current one. A matched entry stays in the list.
   */
  function Walk(wait: seq<Pending>, inBuf: seq<int>, now: int, i: nat): WalkResult
    requires WellFormed(wait)
    decreases |wait| - i
  {
    if i >= |wait| then WalkResult(wait, inBuf, [], false)
    else if Expired(wait[i], now) then Walk(wait[1..], inBuf, now, i + 1)
    else if |inBuf| < wait[i].arity then WalkResult(wait, inBuf, [], true)
    else
      var rest := Walk(wait, inBuf[wait[i].arity..], now, i + 1);
      match Transform(wait[i].kind, inBuf[..wait[i].arity])
      case None => rest
      case Some(e) => rest.(events := [e] + rest.events)
  }

  /** The walk from the start of the list, then the resynchronisation: an empty `_waitBuffer` empties `_inBuffer`. */
  function Check(wait: seq<Pending>, inBuf: seq<int>, now: int): WalkResult
    requires WellFormed(wait)
  {
    var w := Walk(wait, inBuf, now, 0);
    if w.wait == [] then w.(inBuf := []) else w
  }

  /**
   * The walk only ever removes entries from the front of `_waitBuffer` and
   * values from the front of `_inBuffer`, and it leaves a well-formed list.
   */
  lemma {:induction false} WalkTakesFromFront(wait: seq<Pending>, inBuf: seq<int>, now: int, i: nat)
    requires WellFormed(wait)
    ensures var r := Walk(wait, inBuf, now, i);
      && |r.wait| <= |wait| && r.wait == wait[|wait| - |r.wait|..]
      && |r.inBuf| <= |inBuf| && r.inBuf == inBuf[|inBuf| - |r.inBuf|..]
      && WellFormed(r.wait)
  {
    WalkDropsFront(wait, inBuf, now, i);
    WalkConsumesFront(wait, inBuf, now, i);
    var n := |Walk(wait, inBuf, now, i).wait|;
    WellFormedSuffix(wait, |wait| - n);
  }

  lemma WellFormedSuffix(wait: seq<Pending>, k: nat)
    requires WellFormed(wait) && k <= |wait|
    ensures WellFormed(wait[k..])
  {
    forall j | 0 <= j < |wait[k..]| ensures wait[k..][j].arity == Arity(wait[k..][j].kind) {
      assert wait[k..][j] == wait[k + j];
    }
  }

  lemma {:induction false} WalkDropsFront(wait: seq<Pending>, inBuf: seq<int>, now: int, i: nat)
    requires WellFormed(wait)
    ensures var r := Walk(wait, inBuf, now, i);
      |r.wait| <= |wait| && r.wait == wait[|wait| - |r.wait|..]
    decreases |wait| - i
  {
    if i < |wait| {
      if Expired(wait[i], now) {
        WellFormedSuffix(wait, 1);
        WalkDropsFront(wait[1..], inBuf, now, i + 1);
        var n := |Walk(wait[1..], inBuf, now, i + 1).wait|;
        assert wait[1..][|wait| - 1 - n..] == wait[|wait| - n..];
      } else if |inBuf| >= wait[i].arity {
        WalkDropsFront(wait, inBuf[wait[i].arity..], now, i + 1);
      }
    }
  }

  lemma {:induction false} WalkConsumesFront(wait: seq<Pending>, inBuf: seq<int>, now: int, i: nat)
    requires WellFormed(wait)
    ensures var r := Walk(wait, inBuf, now, i);
      |r.inBuf| <= |inBuf| && r.inBuf == inBuf[|inBuf| - |r.inBuf|..]
    decreases |wait| - i
  {
    if i < |wait| {
      if Expired(wait[i], now) {
        WellFormedSuffix(wait, 1);
        WalkConsumesFront(wait[1..], inBuf, now, i + 1);
      } else if |inBuf| >= wait[i].arity {
        var a := wait[i].arity;
        WalkConsumesFront(wait, inBuf[a..], now, i + 1);
        var n := |Walk(wait, inBuf[a..], now, i + 1).inBuf|;
        assert inBuf[a..][|inBuf| - a - n..] == inBuf[|inBuf| - n..];
      }
    }
  }

  /**
   * Without expired entries the walk removes nothing from `_waitBuffer`, not
   * even the entries it matched; it consumes at most two values per entry.
   */
  lemma {:induction false} WalkKeepsLiveEntries(wait: seq<Pending>, inBuf: seq<int>, now: int, i: nat)
    requires WellFormed(wait)
    requires forall k :: i <= k < |wait| ==> !Expired(wait[k], now)
    ensures Walk(wait, inBuf, now, i).wait == wait
    ensures i <= |wait| ==> |inBuf| - |Walk(wait, inBuf, now, i).inBuf| <= 2 * (|wait| - i)
    decreases |wait| - i
  {
    if i < |wait| && |inBuf| >= wait[i].arity {
      assert wait[i].arity <= 2;
      WalkKeepsLiveEntries(wait, inBuf[wait[i].arity..], now, i + 1);
    }
  }

  /**
   * Every event has its kind's number of raw values; ANALOG and TEMP events,
   * and only they, carry the derived reading of their first value; a CLICK
   * event never has a first value over 1000. There is at most one event per
   * entry visited.
   */
  lemma {:induction false} WalkEvents(wait: seq<Pending>, inBuf: seq<int>, now: int, i: nat)
    requires WellFormed(wait)
    ensures var r := Walk(wait, inBuf, now, i);
      && (i <= |wait| ==> |r.events| <= |wait| - i)
      && forall k :: 0 <= k < |r.events| ==>
           var e := r.events[k];
           && |e.raw| == Arity(e.kind)
           && (e.kind == Click ==> e.raw[0] <= 1000 && e.derived == None)
           && (e.kind == Analog ==> e.derived == Some(AnalogVolts(e.raw[0])))
           && (e.kind == Temp ==> e.derived == Some(TempCelsius(e.raw[0])))
           && (e.kind == Voltage ==> e.derived == None)
    decreases |wait| - i
  {
    if i < |wait| {
      if Expired(wait[i], now) {
        WalkEvents(wait[1..], inBuf, now, i + 1);
        assert i + 1 >= |wait[1..]| ==> Walk(wait[1..], inBuf, now, i + 1).events == [];
      } else if |inBuf| >= wait[i].arity {
        WalkEvents(wait, inBuf[wait[i].arity..], now, i + 1);
      }
    }
  }

  /**
   * The walk stops early only at an entry that is still live and wants more
   * values than are left; that entry is still waiting afterwards.
   */
  lemma {:induction false} WalkStallsOnStarvedEntry(wait: seq<Pending>, inBuf: seq<int>, now: int, i: nat)
    requires WellFormed(wait)
    ensures var r := Walk(wait, inBuf, now, i);
      r.stalled ==> exists k :: 0 <= k < |r.wait| && !Expired(r.wait[k], now) && |r.inBuf| < r.wait[k].arity
    decreases |wait| - i
  {
    if i < |wait| {
      if Expired(wait[i], now) {
        WalkStallsOnStarvedEntry(wait[1..], inBuf, now, i + 1);
      } else if |inBuf| >= wait[i].arity {
        WalkStallsOnStarvedEntry(wait, inBuf[wait[i].arity..], now, i + 1);
      }
    }
  }

  // ---------------------------------------------------------------------------
  // The walk against a reference matching
  // ---------------------------------------------------------------------------

  /** The number of values a run of entries asks for: the sum of their arities. */
  function Demand(entries: seq<Pending>): nat
  {
    if entries == [] then 0 else Demand(entries[..|entries| - 1]) + Arity(entries[|entries| - 1].kind)
  }

  lemma DemandStep(entries: seq<Pending>, j: nat)
    requires j < |entries|
    ensures Demand(entries[..j + 1]) == Demand(entries[..j]) + Arity(entries[j].kind)
  {
    assert entries[..j + 1][..j] == entries[..j];
  }

  /** What a run asks for is its first entry's arity plus what the rest of the run asks for. */
  lemma {:induction false} DemandCons(entries: seq<Pending>, j: nat)
    requires 1 <= j <= |entries|
    ensures Demand(entries[..j]) == Arity(entries[0].kind) + Demand(entries[1..][..j - 1])
  {
    if j == 1 {
      assert entries[..1][..0] == [] && entries[1..][..0] == [];
    } else {
      DemandCons(entries, j - 1);
      DemandStep(entries, j - 1);
      DemandStep(entries[1..], j - 2);
    }
  }

  /** The answers of the entries served, in order, and the values left over. */
  datatype Service = Service(answers: seq<Option<Event>>, rest: seq<int>)

  /**
   * The matching read plainly: the entries, in order, each take the next
   * `Arity(kind)` values from the front of the buffer, until one wants more
   * values than remain. An entry's answer is its event, or `None` when the event is
   * rejected.
   */
  function Serve(entries: seq<Pending>, values: seq<int>): Service
  {
    if entries == [] || |values| < Arity(entries[0].kind) then Service([], values)
    else
      var a := Arity(entries[0].kind);
      var s := Serve(entries[1..], values[a..]);
      s.(answers := [Transform(entries[0].kind, values[..a])] + s.answers)
  }

  /** The events among some answers, in order. */
  function Somes(answers: seq<Option<Event>>): seq<Event>
  {
    if answers == [] then []
    else (if answers[0].Some? then [answers[0].value] else []) + Somes(answers[1..])
  }

  /**
   * Service stops only at an entry that wants more values than remain, and
   * the values left are exactly those after what the served entries asked for.
   */
  lemma {:induction false} ServeRest(entries: seq<Pending>, values: seq<int>)
    ensures var s := Serve(entries, values); var n := |s.answers|;
      && n <= |entries|
      && Demand(entries[..n]) <= |values|
      && s.rest == values[Demand(entries[..n])..]
      && (n < |entries| ==> |s.rest| < Arity(entries[n].kind))
  {
    if entries == [] || |values| < Arity(entries[0].kind) {
      assert entries[..0] == [];
    } else {
      var a := Arity(entries[0].kind);
      var tail, later := entries[1..], values[a..];
      ServeRest(tail, later);
      var m := |Serve(tail, later).answers|;
      DemandCons(entries, m + 1);
      assert later[Demand(tail[..m])..] == values[a + Demand(tail[..m])..];
      if m + 1 < |entries| {
        assert entries[m + 1] == tail[m];
      }
    }
  }

  /**
   * After the first `j` entries are served, the service goes on as the
   * service of the remaining entries on the values they left.
   */
  lemma {:induction false} ServeSuffix(entries: seq<Pending>, values: seq<int>, j: nat)
    requires j <= |Serve(entries, values).answers|
    ensures j <= |entries| && Demand(entries[..j]) <= |values|
    ensures Serve(entries[j..], values[Demand(entries[..j])..]).answers == Serve(entries, values).answers[j..]
    ensures Serve(entries[j..], values[Demand(entries[..j])..]).rest == Serve(entries, values).rest
  {
    ServeWithin(entries, values, j);
    var s := Serve(entries, values);
    if j == 0 {
      assert entries[..0] == [] && entries[0..] == entries && values[0..] == values;
      assert s.answers[0..] == s.answers;
    } else {
      var a := Arity(entries[0].kind);
      var tail, later := entries[1..], values[a..];
      var t := Serve(tail, later);
      assert s.answers == [Transform(entries[0].kind, values[..a])] + t.answers && s.rest == t.rest;
      ServeSuffix(tail, later, j - 1);
      DemandCons(entries, j);
      var d := Demand(tail[..j - 1]);
      assert tail[j - 1..] == entries[j..] && later[d..] == values[a + d..];
      assert s.answers[j..] == t.answers[j - 1..];
    }
  }

  /** The first `j` served entries lie within the list and ask for no more values than there are. */
  lemma {:induction false} ServeWithin(entries: seq<Pending>, values: seq<int>, j: nat)
    requires j <= |Serve(entries, values).answers|
    ensures j <= |entries| && Demand(entries[..j]) <= |values|
  {
    if j == 0 {
      assert entries[..0] == [];
    } else {
      var a := Arity(entries[0].kind);
      assert |Serve(entries, values).answers| == 1 + |Serve(entries[1..], values[a..]).answers|;
      ServeWithin(entries[1..], values[a..], j - 1);
      DemandCons(entries, j);
    }
  }

  /**
   * Served entry `j` gets exactly the values at positions
   * `Demand(entries[..j])` up to `Demand(entries[..j + 1])`, so no value is
   * shared, skipped or reordered.
   */
  lemma ServeAnswer(entries: seq<Pending>, values: seq<int>, j: nat)
    requires j < |Serve(entries, values).answers|
    ensures j < |entries| && Demand(entries[..j + 1]) == Demand(entries[..j]) + Arity(entries[j].kind) <= |values|
    ensures Serve(entries, values).answers[j]
      == Transform(entries[j].kind, values[Demand(entries[..j])..Demand(entries[..j + 1])])
  {
    ServeSuffix(entries, values, j);
    var d := Demand(entries[..j]);
    var a := Arity(entries[j].kind);
    DemandStep(entries, j);
    assert entries[j..][0] == entries[j];
    assert values[d..][..a] == values[d..d + a];
  }

  /**
   * While no entry from index `i` on has expired, the walk is the plain
   * matching: it keeps every entry, its events are the unrejected answers
   * of the entries served, it leaves the values those entries did not take,
   * and it stalls exactly when an entry was left unserved.
   */
  lemma {:induction false} WalkBindsInOrder(wait: seq<Pending>, inBuf: seq<int>, now: int, i: nat)
    requires WellFormed(wait) && i <= |wait|
    requires forall k :: i <= k < |wait| ==> !Expired(wait[k], now)
    ensures var r, s := Walk(wait, inBuf, now, i), Serve(wait[i..], inBuf);
      && r.wait == wait
      && r.events == Somes(s.answers)
      && r.inBuf == s.rest
      && (r.stalled <==> |s.answers| < |wait| - i)
    decreases |wait| - i
  {
    if i == |wait| {
      assert wait[i..] == [];
    } else if |inBuf| >= wait[i].arity {
      var a := wait[i].arity;
      WalkBindsInOrder(wait, inBuf[a..], now, i + 1);
      assert wait[i..][1..] == wait[i + 1..];
      var answers := Serve(wait[i..], inBuf).answers;
      assert answers[1..] == Serve(wait[i + 1..], inBuf[a..]).answers;
    }
  }

  /** How many of the entries have not expired at `now`. */
  function LiveCount(entries: seq<Pending>, now: int): nat
  {
    if entries == [] then 0
    else (if Expired(entries[0], now) then 0 else 1) + LiveCount(entries[1..], now)
  }

  /**
   * Expired entries are never answered: a walk from index `i` produces at
   * most one event per entry from `i` on that is still live.
   */
  lemma {:induction false} WalkAnswersOnlyLive(wait: seq<Pending>, inBuf: seq<int>, now: int, i: nat)
    requires WellFormed(wait) && i <= |wait|
    ensures |Walk(wait, inBuf, now, i).events| <= LiveCount(wait[i..], now)
    decreases |wait| - i
  {
    if i < |wait| {
      assert wait[i..][1..] == wait[i + 1..];
      if Expired(wait[i], now) {
        if i + 1 < |wait| {
          WalkAnswersOnlyLive(wait[1..], inBuf, now, i + 1);
          assert wait[1..][i + 1..] == wait[i + 1..][1..];
        }
      } else if |inBuf| >= wait[i].arity {
        WalkAnswersOnlyLive(wait, inBuf[wait[i].arity..], now, i + 1);
      }
    }
  }

  /** A walk over expired entries only produces nothing, takes no values and does not stall. */
  lemma {:induction false} WalkAllExpired(wait: seq<Pending>, inBuf: seq<int>, now: int, i: nat)
    requires WellFormed(wait)
    requires forall k :: i <= k < |wait| ==> Expired(wait[k], now)
    ensures var r := Walk(wait, inBuf, now, i);
      r.events == [] && r.inBuf == inBuf && !r.stalled
    decreases |wait| - i
  {
    if i < |wait| {
      WalkAllExpired(wait[1..], inBuf, now, i + 1);
    }
  }

  /**
   * The entries the walk from index `i` reaches and does not drop as
   * expired, in the order it reaches them: `pop(0)` shortens the list under
   * the iterator, so after an expired entry the walk resumes one index
   * further into the shortened list.
   */
  function Visited(wait: seq<Pending>, now: int, i: nat): seq<Pending>
    decreases |wait| - i
  {
    if i >= |wait| then []
    else if Expired(wait[i], now) then Visited(wait[1..], now, i + 1)
    else [wait[i]] + Visited(wait, now, i + 1)
  }

  /** Every entry the walk serves is live and comes from the list. */
  lemma {:induction false} VisitedLive(wait: seq<Pending>, now: int, i: nat)
    ensures forall k :: 0 <= k < |Visited(wait, now, i)| ==>
      !Expired(Visited(wait, now, i)[k], now) && Visited(wait, now, i)[k] in wait
    decreases |wait| - i
  {
    if i < |wait| {
      if Expired(wait[i], now) {
        VisitedLive(wait[1..], now, i + 1);
        forall p | p in wait[1..] ensures p in wait {
        }
      } else {
        VisitedLive(wait, now, i + 1);
      }
    }
  }

  /**
   * Whatever has expired, the walk is the plain matching of the entries it
   * reaches alive: its events are their unrejected answers in order, it
   * leaves the values they did not take, and it stalls exactly when one of
   * them went unserved. Together with `VisitedLive`, an expired entry is
   * never answered and never takes a value.
   */
  lemma {:induction false} WalkIsServeOfVisited(wait: seq<Pending>, inBuf: seq<int>, now: int, i: nat)
    requires WellFormed(wait)
    ensures var r, s := Walk(wait, inBuf, now, i), Serve(Visited(wait, now, i), inBuf);
      && r.events == Somes(s.answers)
      && r.inBuf == s.rest
      && (r.stalled <==> |s.answers| < |Visited(wait, now, i)|)
    decreases |wait| - i
  {
    if i < |wait| {
      if Expired(wait[i], now) {
        WellFormedSuffix(wait, 1);
        WalkIsServeOfVisited(wait[1..], inBuf, now, i + 1);
      } else if |inBuf| >= wait[i].arity {
        var a := wait[i].arity;
        WalkIsServeOfVisited(wait, inBuf[a..], now, i + 1);
        var later := Visited(wait, now, i + 1);
        assert ([wait[i]] + later)[0] == wait[i] && ([wait[i]] + later)[1..] == later;
        var answers := Serve(Visited(wait, now, i), inBuf).answers;
        assert answers[1..] == Serve(later, inBuf[a..]).answers;
      }
    }
  }

  // ---------------------------------------------------------------------------
  // Scenarios
  // ---------------------------------------------------------------------------

  /** Two requests of arities 2 and 1 and three values: the first two go to the first request, the third to the second. */
  lemma OrderedMatching()
    ensures var wait := [Pending(Click, 2, 0), Pending(Voltage, 1, 0)];
      var r := Check(wait, [10, 20, 4800], 100);
      r.events == [Event(Click, None, [10, 20]), Event(Voltage, None, [4800])]
      && r.wait == wait && r.inBuf == []
  {
    var wait := [Pending(Click, 2, 0), Pending(Voltage, 1, 0)];
    var values: seq<int> := [10, 20, 4800];
    assert values[2..] == [4800] && values[..2] == [10, 20];
    assert Walk(wait, [], 100, 2) == WalkResult(wait, [], [], false);
    assert [4800][1..] == [] && [4800][..1] == [4800];
    assert Walk(wait, [4800], 100, 1).events == [Event(Voltage, None, [4800])];
  }

  /** A request older than 2000 ms is dropped unanswered, and the values that arrive for it are discarded with it. */
  lemma ExpiredRequestDropped()
    ensures var r := Check([Pending(Analog, 1, 0)], [1234], 2001);
      r.events == [] && r.wait == [] && r.inBuf == []
  {
  }

  /** A click whose first value is over 1000 is consumed with its second value but not reported. */
  lemma ClickRejected()
    ensures var wait := [Pending(Click, 2, 0), Pending(Voltage, 1, 0)];
      var r := Check(wait, [1500, 7, 4800], 0);
      r.events == [Event(Voltage, None, [4800])] && r.wait == wait && r.inBuf == []
  {
    var wait := [Pending(Click, 2, 0), Pending(Voltage, 1, 0)];
    var values: seq<int> := [1500, 7, 4800];
    assert values[2..] == [4800] && values[..2] == [1500, 7];
    assert Walk(wait, [], 0, 2) == WalkResult(wait, [], [], false);
    assert [4800][1..] == [] && [4800][..1] == [4800];
    assert Walk(wait, [4800], 0, 1).events == [Event(Voltage, None, [4800])];
  }

  /** Popping an expired head makes the loop pass over the next entry: the second expired entry survives. */
  lemma PopSkipsNextEntry()
    ensures var a, b, c := Pending(Voltage, 1, 0), Pending(Voltage, 1, 0), Pending(Analog, 1, 2500);
      var r := Check([a, b, c], [8], 3000);
      r.wait == [b, c] && r.events == [Event(Analog, Some(AnalogVolts(8)), [8])] && r.inBuf == []
  {
    var a, b, c := Pending(Voltage, 1, 0), Pending(Voltage, 1, 0), Pending(Analog, 1, 2500);
    assert [a, b, c][1..] == [b, c];
    assert Walk([b, c], [], 3000, 2) == WalkResult([b, c], [], [], false);
    assert [8][1..] == [] && [8][..1] == [8];
    assert Walk([b, c], [8], 3000, 1).events == [Event(Analog, Some(AnalogVolts(8)), [8])];
  }

  /**
   * A live entry behind a popped expired head is passed over: the click
   * after it takes its value, and it is answered only by the next poll,
   * which starts from the buffers the first one left.
   */
  lemma SkippedEntryAnsweredLater()
    ensures var stale, volts, click := Pending(Voltage, 1, 0), Pending(Voltage, 1, 2500), Pending(Click, 2, 2500);
      var first := Check([stale, volts, click], [4800, 10, 20], 3000);
      var second := Check([volts, click], [20], 3010);
      && first.events == [] && first.wait == [volts, click] && first.inBuf == [20]
      && second.events == [Event(Voltage, None, [20])] && second.wait == [volts, click] && second.inBuf == []
  {
    var stale, volts, click := Pending(Voltage, 1, 0), Pending(Voltage, 1, 2500), Pending(Click, 2, 2500);
    var values: seq<int> := [4800, 10, 20];
    assert [stale, volts, click][1..] == [volts, click];
    assert values[2..] == [20] && values[..2] == [4800, 10];
    assert Walk([volts, click], [20], 3000, 2) == WalkResult([volts, click], [20], [], false);
    assert Walk([volts, click], values, 3000, 1) == WalkResult([volts, click], [20], [], false);
    assert [20][1..] == [] && [20][..1] == [20];
    assert Walk([volts, click], [], 3010, 1) == WalkResult([volts, click], [], [], true);
    assert Walk([volts, click], [20], 3010, 0).events == [Event(Voltage, None, [20])];
  }

  /** `pop(0)` removes the head, here the entry just matched, and leaves the expired entry in place. */
  lemma PopRemovesMatchedHead()
    ensures var live, stale := Pending(Voltage, 1, 2500), Pending(Analog, 1, 0);
      var r := Check([live, stale], [4800], 3000);
      r.wait == [stale] && r.events == [Event(Voltage, None, [4800])] && r.inBuf == []
  {
    var live, stale := Pending(Voltage, 1, 2500), Pending(Analog, 1, 0);
    assert [live, stale][1..] == [stale];
    assert [4800][1..] == [] && [4800][..1] == [4800];
    assert Walk([stale], [], 3000, 2) == WalkResult([stale], [], [], false);
    assert Walk([live, stale], [], 3000, 1) == WalkResult([stale], [], [], false);
    assert Walk([live, stale], [4800], 3000, 0) == WalkResult([stale], [], [Event(Voltage, None, [4800])], false);
  }

  /** A matched request stays pending, so the next poll matches it again with the next value. */
  lemma MatchedRequestAnsweredTwice()
    ensures var wait := [Pending(Voltage, 1, 0)];
      var first := Check(wait, [4800], 10);
      var second := Check(first.wait, first.inBuf + [4700], 20);
      first.events == [Event(Voltage, None, [4800])]
      && second.events == [Event(Voltage, None, [4700])]
  {
    var wait := [Pending(Voltage, 1, 0)];
    assert [4800][1..] == [] && [4800][..1] == [4800];
    assert Walk(wait, [], 10, 1) == WalkResult(wait, [], [], false);
    assert Walk(wait, [4800], 10, 0) == WalkResult(wait, [], [Event(Voltage, None, [4800])], false);
    assert [] + [4700] == [4700];
    assert [4700][1..] == [] && [4700][..1] == [4700];
    assert Walk(wait, [], 20, 1) == WalkResult(wait, [], [], false);
    assert Walk(wait, [4700], 20, 0) == WalkResult(wait, [], [Event(Voltage, None, [4700])], false);
  }
}
