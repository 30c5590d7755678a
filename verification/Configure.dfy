/** configure of SpeedDetector.java: the searches at all ports, driven by a selector. */
module Configuring {
  import opened SpeedSearch
  import opened Reception
  import opened Channels
  import opened SpeedDetection
  import opened Basics

  class SelectionKey {
    const channel: SerialChannel
    const ctx: Ctx
    var cancelled: bool

    ghost function Own(): set<object> {
      {this, channel, ctx, ctx.bb, ctx.bb.store, ctx.matcher}
    }

    /** Cancelled once there is a verdict; until then, and after a success, tuned; every byte taken was logged. */
    ghost predicate Valid()
      reads Own()
    {
      && ctx.Valid() && cancelled == !ctx.Reached().state.GoOn?
      && (!ctx.Reached().state.Fail? ==> ctx.Tuned(channel))
      && channel.taken == BytesIn(ctx.log) && ctx.Recorded(channel, 0)
    }

    constructor (channel: SerialChannel, ctx: Ctx)
      ensures this.channel == channel && this.ctx == ctx && !cancelled
    {
      this.channel, this.ctx, cancelled := channel, ctx, false;
    }

    method Cancel()
      modifies `cancelled
      ensures cancelled
    {
      cancelled := true;
    }
  }

  function Uncancelled(keys: set<SelectionKey>): set<SelectionKey>
    reads keys
  {
    set k | k in keys && !k.cancelled
  }

  /** What one select found ready, and the keys that were registered then. */
  datatype Found = Found(ready: set<SelectionKey>, keys: set<SelectionKey>) {
    ghost predicate Nothing() {
      ready == {} && keys == {}
    }
  }

  /** SerialSelector.java: which keys get ready is not determined. */
  class Selector {
    var keys: set<SelectionKey>
    var selected: set<SelectionKey>
    ghost var found: seq<Found>

    constructor ()
      ensures keys == {} && selected == {} && found == []
    {
      keys, selected, found := {}, {}, [];
    }

    /** Takes a key out of the selected set while it is being walked. */
    method RemoveSelected(k: SelectionKey)
      modifies `selected
      ensures selected == old(selected) - {k}
    {
      selected := selected - {k};
    }

    /** select(timeout), with handleCancelled before. */
    method Select() returns (count: nat)
      modifies this
      ensures keys == old(Uncancelled(keys))
      ensures old(selected) <= selected && selected - old(selected) <= keys && count == |selected - old(selected)|
      ensures found == old(found) + [Found(selected - old(selected), keys)]
    {
      keys := Uncancelled(keys);
      var ready: set<SelectionKey> := *;
      ready := (ready * keys) - selected;
      selected := selected + ready;
      assert selected - old(selected) == ready;
      found := found + [Found(ready, keys)];
      count := |ready|;
    }
  }

  // ---------------------------------------------------------------- all keys

  /** All keys ever registered, and everything they own. */
  datatype World = World(keys: seq<SelectionKey>, own: set<object>, settings: Settings, endless: bool) {
    ghost predicate Shape() {
      && (forall i, j :: 0 <= i < j < |keys| ==> keys[i].Own() !! keys[j].Own())
      && forall i :: 0 <= i < |keys| ==> keys[i].Own() <= own && keys[i].ctx.settings == settings &&
                                           keys[i].channel.endless == endless
    }

    /** Every tryMatch comes to an end: lines pause now and then, or detection can end. */
    ghost predicate CanEnd() {
      endless ==> settings.CanEnd()
    }

    ghost predicate Valid()
      reads own
    {
      Shape() && forall i :: 0 <= i < |keys| ==> keys[i].Valid()
    }

    ghost function Searches(): (ds: seq<Search>)
      requires Shape()
      reads own
      ensures |ds| == |keys| && forall i :: 0 <= i < |keys| ==> ds[i] == keys[i].ctx.Reached()
    {
      seq(|keys|, i requires 0 <= i < |keys| && Shape() reads own =>
        assert keys[i].ctx in keys[i].Own(); keys[i].ctx.Reached())
    }

    /** How often each port was tried. */
    ghost function Tries(): (tries: seq<nat>)
      requires Shape()
      reads own
      ensures |tries| == |keys| && forall i :: 0 <= i < |keys| ==> tries[i] == keys[i].ctx.tries
    {
      seq(|keys|, i requires 0 <= i < |keys| && Shape() reads own =>
        assert keys[i].ctx in keys[i].Own(); keys[i].ctx.tries)
    }

    ghost function Ports(): (ports: seq<string>)
      ensures |ports| == |keys| && forall i :: 0 <= i < |keys| ==> ports[i] == keys[i].ctx.port
    {
      seq(|keys|, i requires 0 <= i < |keys| => keys[i].ctx.port)
    }

    ghost function With(key: SelectionKey): World {
      World(keys + [key], own + key.Own(), settings, endless)
    }

    lemma Grows(key: SelectionKey)
      requires Valid() && key.Valid() && key.Own() !! own && key.ctx.settings == settings &&
          key.channel.endless == endless
      ensures With(key).Valid() && With(key).Ports() == Ports() + [key.ctx.port]
      ensures With(key).Searches() == Searches() + [key.ctx.Reached()] && With(key).Tries() == Tries() + [key.ctx.tries]
    {
      assert forall i :: 0 <= i < |keys| ==> keys[i].Own() !! key.Own();
    }

    /** A change to what key i owns leaves the other keys as they were. */
    lemma OnlyOneMoved(i: nat, before: seq<Search>, tries: seq<nat>)
      requires Shape() && i < |keys| == |before| == |tries| && keys[i].Valid()
      requires forall j :: 0 <= j < |keys| && j != i ==>
                 keys[j].Valid() && keys[j].ctx.Reached() == before[j] && keys[j].ctx.tries == tries[j]
      ensures Valid() && Searches() == before[i := keys[i].ctx.Reached()] && Tries() == tries[i := keys[i].ctx.tries]
    {
    }
  }

  // ---------------------------------------------------------------- the result map

  ghost predicate FoundAt(ports: seq<string>, speeds: seq<nat>, ds: seq<Search>, i: nat, port: string, speed: nat) {
    && i < |ports| == |ds| && ports[i] == port
    && ds[i].state.Success? && ds[i].confNo < |speeds| && speeds[ds[i].confNo] == speed
  }

  /** The ports of the searches that succeeded, each with a speed that a search at it found. */
  ghost predicate MapFits(m: map<string, nat>, ports: seq<string>, speeds: seq<nat>, ds: seq<Search>) {
    && |ports| == |ds|
    && (forall i :: 0 <= i < |ds| && ds[i].state.Success? ==> ports[i] in m)
    && (forall port :: port in m ==> exists i :: FoundAt(ports, speeds, ds, i, port, m[port]))
  }

  lemma MapFitsSuccess(m: map<string, nat>, ports: seq<string>, speeds: seq<nat>, ds: seq<Search>, i: nat, d: Search)
    requires MapFits(m, ports, speeds, ds) && i < |ds| && ds[i].state.GoOn? && d.state.Success? && d.confNo < |speeds|
    ensures MapFits(m[ports[i] := speeds[d.confNo]], ports, speeds, ds[i := d])
  {
    var m', ds' := m[ports[i] := speeds[d.confNo]], ds[i := d];
    forall port | port in m' ensures exists j :: FoundAt(ports, speeds, ds', j, port, m'[port]) {
      if port == ports[i] {
        assert FoundAt(ports, speeds, ds', i, port, m'[port]);
      } else {
        var j :| FoundAt(ports, speeds, ds, j, port, m[port]);
        assert FoundAt(ports, speeds, ds', j, port, m'[port]);
      }
    }
  }

  /** With a key for each port, the map holds exactly the ports that succeeded, at the speeds they found. */
  lemma MapIsExact(m: map<string, nat>, ports: seq<string>, speeds: seq<nat>, ds: seq<Search>)
    requires MapFits(m, ports, speeds, ds) && forall i, j :: 0 <= i < j < |ports| ==> ports[i] != ports[j]
    ensures forall i :: 0 <= i < |ports| ==>
              (ports[i] in m <==> ds[i].state.Success?) &&
              (ports[i] in m ==> FoundAt(ports, speeds, ds, i, ports[i], m[ports[i]]))
  {
    forall i | 0 <= i < |ports| && ports[i] in m ensures FoundAt(ports, speeds, ds, i, ports[i], m[ports[i]]) {
      var j :| FoundAt(ports, speeds, ds, j, ports[i], m[ports[i]]);
    }
  }

  /** No success came or went. */
  ghost predicate SameSuccesses(ds: seq<Search>, ds': seq<Search>) {
    && |ds| == |ds'|
    && forall i :: 0 <= i < |ds| ==> if ds[i].state.Success? then ds'[i] == ds[i] else !ds'[i].state.Success?
  }

  lemma MapFitsStill(m: map<string, nat>, ports: seq<string>, speeds: seq<nat>, ds: seq<Search>, ds': seq<Search>)
    requires MapFits(m, ports, speeds, ds) && SameSuccesses(ds, ds')
    ensures MapFits(m, ports, speeds, ds')
  {
    forall port | port in m ensures exists j :: FoundAt(ports, speeds, ds', j, port, m[port]) {
      var j :| FoundAt(ports, speeds, ds, j, port, m[port]);
      assert FoundAt(ports, speeds, ds', j, port, m[port]);
    }
  }

  // ---------------------------------------------------------------- one key

  /** From ds to ds' only the searches whose keys are in keys went on, if they had no verdict yet. */
  ghost predicate WentOn(w: World, keys: set<SelectionKey>, ds: seq<Search>, ds': seq<Search>) {
    && |ds| == |ds'| == |w.keys|
    && forall i :: 0 <= i < |ds| ==>
         if ds[i].state.GoOn? && w.keys[i] in keys then ds'[i].confNo >= ds[i].confNo else ds'[i] == ds[i]
  }

  /** Each key of tried was tried once, and no other. */
  ghost predicate TriedOnce(w: World, tried: set<SelectionKey>, tries: seq<nat>, tries': seq<nat>) {
    && |tries| == |tries'| == |w.keys|
    && forall i :: 0 <= i < |tries| ==> tries'[i] == tries[i] + if w.keys[i] in tried then 1 else 0
  }

  /** One selected key: its verdict, if any, is entered and cancels it. */
  method MatchKey(k: SelectionKey, m: map<string, nat>) returns (m': map<string, nat>)
    requires k.Valid() && !k.cancelled && (k.channel.endless ==> k.ctx.settings.CanEnd())
    modifies k.Own()
    ensures k.Valid() && k.ctx.confNo >= old(k.ctx.confNo) && k.ctx.tries == old(k.ctx.tries) + 1
    ensures k.ctx.Reached().state.Success? ==> k.ctx.confNo < |k.ctx.settings.speeds|
    ensures m' == if k.ctx.Reached().state.Success? then m[k.ctx.port := k.ctx.GetSpeed()] else m
  {
    m' := m;
    ghost var before := k.ctx.log;
    var state;
    ghost var fed;
    state, fed := k.ctx.TryMatch(k.channel);
    BytesInAppend(before, fed);
    RunGoesForward(k.ctx.settings, before, Bytes(fed));
    match state {
      case Success =>
        m' := m'[k.ctx.port := k.ctx.GetSpeed()];
        k.Cancel();
      case Fail =>
        k.Cancel();
      case GoOn =>
    }
  }

  /** One key after a select that timed out. */
  method TimeOutKey(k: SelectionKey)
    requires k.Valid() && !k.cancelled
    modifies k.Own()
    ensures k.Valid() && k.ctx.Reached() == Next(k.ctx.settings, old(k.ctx.Reached()), Timeout)
    ensures k.ctx.tries == old(k.ctx.tries)
  {
    var has := k.ctx.TimeOut(k.channel);
    if !has {
      k.Cancel();
    }
  }

  // ---------------------------------------------------------------- the loops over keys

  /** What holds between any two rounds: m are the results so far. */
  ghost predicate InProgress(w: World, m: map<string, nat>)
    reads w.own
  {
    w.Valid() && MapFits(m, w.Ports(), w.settings.speeds, w.Searches())
  }

  /** The keys are registered and not cancelled. */
  ghost predicate Live(keys: set<SelectionKey>, w: World)
    reads keys
  {
    forall k :: k in keys ==> k in w.keys && !k.cancelled
  }

  method MatchOne(k: SelectionKey, m: map<string, nat>, ghost w: World) returns (m': map<string, nat>)
    requires InProgress(w, m) && k in w.keys && !k.cancelled && w.CanEnd()
    modifies w.own
    ensures InProgress(w, m') && WentOn(w, {k}, old(w.Searches()), w.Searches())
    ensures TriedOnce(w, {k}, old(w.Tries()), w.Tries())
    ensures forall k' :: k' in w.keys && k' != k ==> k'.cancelled == old(k'.cancelled)
  {
    ghost var before, tries := w.Searches(), w.Tries();
    ghost var i :| 0 <= i < |w.keys| && w.keys[i] == k;
    m' := MatchKey(k, m);
    w.OnlyOneMoved(i, before, tries);
    OnlyThisTried(w, i, tries);
    Entered(w, m, m', before, i, k.ctx.Reached());
  }

  lemma OnlyThisTried(w: World, i: nat, tries: seq<nat>)
    requires w.Shape() && i < |w.keys| == |tries|
    ensures TriedOnce(w, {w.keys[i]}, tries, tries[i := tries[i] + 1])
  {
    forall j | 0 <= j < |w.keys| && j != i ensures w.keys[j] != w.keys[i] {
      assert w.keys[if i < j then i else j].Own() !! w.keys[if i < j then j else i].Own();
    }
  }

  /** The result of key i is in the map, if it has one. */
  lemma Entered(w: World, m: map<string, nat>, m': map<string, nat>, ds: seq<Search>, i: nat, d: Search)
    requires MapFits(m, w.Ports(), w.settings.speeds, ds) && i < |ds| && ds[i].state.GoOn? && d.confNo >= ds[i].confNo
    requires d.state.Success? ==> d.confNo < |w.settings.speeds|
    requires m' == if d.state.Success? then m[w.keys[i].ctx.port := w.settings.speeds[d.confNo]] else m
    ensures MapFits(m', w.Ports(), w.settings.speeds, ds[i := d]) && WentOn(w, {w.keys[i]}, ds, ds[i := d])
  {
    if d.state.Success? {
      MapFitsSuccess(m, w.Ports(), w.settings.speeds, ds, i, d);
    } else {
      MapFitsStill(m, w.Ports(), w.settings.speeds, ds, ds[i := d]);
    }
  }

  /** Of the keys that were selected all but those in left have been matched. */
  ghost predicate MatchedSoFar(w: World, keys: set<SelectionKey>, left: set<SelectionKey>, ds: seq<Search>,
                               ds': seq<Search>, tries: seq<nat>, tries': seq<nat>) {
    left <= keys && WentOn(w, keys, ds, ds') && TriedOnce(w, keys - left, tries, tries')
  }

  lemma MatchedAnother(w: World, keys: set<SelectionKey>, left: set<SelectionKey>, k: SelectionKey, ds: seq<Search>,
                       ds': seq<Search>, ds'': seq<Search>, tries: seq<nat>, tries': seq<nat>, tries'': seq<nat>)
    requires MatchedSoFar(w, keys, left, ds, ds', tries, tries') && k in left
    requires WentOn(w, {k}, ds', ds'') && TriedOnce(w, {k}, tries', tries'')
    ensures MatchedSoFar(w, keys, left - {k}, ds, ds'', tries, tries'')
  {
    assert keys - (left - {k}) == (keys - left) + {k};
  }

  /** One round of the loop in MatchSelected. */
  method MatchNextSelected(selector: Selector, m: map<string, nat>, ghost w: World, ghost keys: set<SelectionKey>,
                           ghost ds: seq<Search>, ghost tries: seq<nat>)
    returns (m': map<string, nat>)
    requires InProgress(w, m) && Live(selector.selected, w) && w.CanEnd() && selector !in w.own
    requires selector.selected != {} && MatchedSoFar(w, keys, selector.selected, ds, w.Searches(), tries, w.Tries())
    modifies selector`selected, w.own
    ensures InProgress(w, m') && Live(selector.selected, w) && selector.selected < old(selector.selected)
    ensures MatchedSoFar(w, keys, selector.selected, ds, w.Searches(), tries, w.Tries())
  {
    var k :| k in selector.selected;
    ghost var left, ds', tries' := selector.selected, w.Searches(), w.Tries();
    selector.RemoveSelected(k);
    m' := MatchOne(k, m, w);
    MatchedAnother(w, keys, left, k, ds, ds', w.Searches(), tries, tries', w.Tries());
  }

  /** Matches the selected keys, one after the other, and removes each from the selected set. */
  method MatchSelected(selector: Selector, m: map<string, nat>, ghost w: World) returns (m': map<string, nat>)
    requires InProgress(w, m) && Live(selector.selected, w) && w.CanEnd() && selector !in w.own
    modifies selector`selected, w.own
    ensures InProgress(w, m') && selector.selected == {}
    ensures WentOn(w, old(selector.selected), old(w.Searches()), w.Searches())
    ensures TriedOnce(w, old(selector.selected), old(w.Tries()), w.Tries())
  {
    m' := m;
    ghost var ds, tries, keys := w.Searches(), w.Tries(), selector.selected;
    while selector.selected != {}
      invariant InProgress(w, m') && Live(selector.selected, w)
      invariant MatchedSoFar(w, keys, selector.selected, ds, w.Searches(), tries, w.Tries())
      decreases selector.selected
    {
      m' := MatchNextSelected(selector, m', w, keys, ds, tries);
    }
    assert keys - {} == keys;
  }

  /** The searches after a timeout for those whose keys are in keys. */
  ghost function TimedOut(w: World, keys: set<SelectionKey>, ds: seq<Search>): (ds': seq<Search>)
    requires |w.keys| == |ds|
    ensures |ds'| == |ds|
    ensures forall i :: 0 <= i < |ds| ==>
        ds'[i] == if w.keys[i] in keys then Next(w.settings, ds[i], Timeout) else ds[i]
  {
    seq(|ds|, i requires 0 <= i < |ds| => if w.keys[i] in keys then Next(w.settings, ds[i], Timeout) else ds[i])
  }

  method TimeOutOne(k: SelectionKey, ghost w: World, ghost done: set<SelectionKey>, ghost start: seq<Search>)
    requires w.Valid() && k in w.keys && k !in done && !k.cancelled
    requires |start| == |w.keys| && w.Searches() == TimedOut(w, done, start)
    modifies w.own
    ensures w.Valid() && w.Searches() == TimedOut(w, done + {k}, start) && w.Tries() == old(w.Tries())
    ensures forall k' :: k' in w.keys && k' != k ==> k'.cancelled == old(k'.cancelled)
  {
    ghost var before, tries := w.Searches(), w.Tries();
    ghost var i :| 0 <= i < |w.keys| && w.keys[i] == k;
    TimeOutKey(k);
    w.OnlyOneMoved(i, before, tries);
  }

  /** Moves the searches of all registered keys to their next configurations, and cancels those that have none. */
  method TimeOutAll(selector: Selector, ghost w: World)
    requires w.Valid() && Live(selector.keys, w) && selector !in w.own
    modifies w.own
    ensures w.Valid() && w.Searches() == TimedOut(w, selector.keys, old(w.Searches())) && w.Tries() == old(w.Tries())
  {
    ghost var start, tries := w.Searches(), w.Tries();
    ghost var done: set<SelectionKey> := {};
    var todo := selector.keys;
    while todo != {}
      invariant w.Valid() && Live(todo, w) && done == selector.keys - todo && todo <= selector.keys
      invariant w.Searches() == TimedOut(w, done, start) && w.Tries() == tries
      decreases todo
    {
      var k :| k in todo;
      TimeOutOne(k, w, done, start);
      todo, done := todo - {k}, done + {k};
    }
    assert done == selector.keys;
  }

  // ---------------------------------------------------------------- configure

  /** The searches without a verdict have their keys among keys and saw all timeouts so far. */
  ghost predicate Pending(w: World, keys: set<SelectionKey>, ds: seq<Search>, timeouts: nat) {
    && |ds| == |w.keys|
    && forall i :: 0 <= i < |ds| && ds[i].state.GoOn? ==> w.keys[i] in keys && ds[i].confNo >= timeouts
  }

  lemma PendingAfterTimeout(w: World, keys: set<SelectionKey>, ds: seq<Search>, timeouts: nat)
    requires Pending(w, keys, ds, timeouts)
    ensures Pending(w, keys, TimedOut(w, keys, ds), timeouts + 1)
    ensures SameSuccesses(ds, TimedOut(w, keys, ds))
  {
  }

  /** What holds between any two rounds of configure. */
  ghost predicate BetweenRounds(selector: Selector, w: World, m: map<string, nat>, timeouts: nat)
    reads selector, w.own
  {
    && InProgress(w, m) && selector.selected == {}
    && (forall k :: k in selector.keys ==> k in w.keys)
    && Pending(w, selector.keys, w.Searches(), timeouts) && timeouts <= |w.settings.speeds|
  }

  method HandleSelected(selector: Selector, m: map<string, nat>, ghost w: World, ghost timeouts: nat)
    returns (m': map<string, nat>)
    requires InProgress(w, m) && w.CanEnd() && selector !in w.own
    requires Live(selector.keys, w) && selector.selected <= selector.keys
    requires Pending(w, selector.keys, w.Searches(), timeouts) && timeouts <= |w.settings.speeds|
    modifies selector`selected, w.own
    ensures BetweenRounds(selector, w, m', timeouts)
    ensures TriedOnce(w, old(selector.selected), old(w.Tries()), w.Tries())
    ensures WentOn(w, old(selector.selected), old(w.Searches()), w.Searches())
  {
    m' := MatchSelected(selector, m, w);
  }

  method HandleTimeout(selector: Selector, m: map<string, nat>, ghost w: World, ghost timeouts: nat)
    requires InProgress(w, m) && selector !in w.own
    requires Live(selector.keys, w) && selector.selected == {} != selector.keys
    requires Pending(w, selector.keys, w.Searches(), timeouts)
    modifies w.own
    ensures BetweenRounds(selector, w, m, timeouts + 1)
    ensures w.Searches() == TimedOut(w, selector.keys, old(w.Searches())) && w.Tries() == old(w.Tries())
  {
    ghost var before := w.Searches();
    assert timeouts < |w.settings.speeds| by {
      var k :| k in selector.keys;
      var i :| 0 <= i < |w.keys| && w.keys[i] == k;
      assert w.keys[i].Valid() && before[i].state.GoOn?;
    }
    TimeOutAll(selector, w);
    PendingAfterTimeout(w, selector.keys, before, timeouts);
    MapFitsStill(m, w.Ports(), w.settings.speeds, before, w.Searches());
  }

  /** The keys that are not cancelled are still those of the searches without a verdict. */
  lemma StillPending(w: World, keys: set<SelectionKey>, timeouts: nat)
    requires w.Valid() && (forall k :: k in keys ==> k in w.keys) && Pending(w, keys, w.Searches(), timeouts)
    ensures Live(Uncancelled(keys), w) && Pending(w, Uncancelled(keys), w.Searches(), timeouts)
  {
    forall i | 0 <= i < |w.keys| && w.Searches()[i].state.GoOn? ensures w.keys[i] in Uncancelled(keys) {
      assert w.keys[i].Valid();
    }
  }

  method SelectKeys(selector: Selector, ghost m: map<string, nat>, ghost w: World, ghost timeouts: nat)
    returns (count: nat)
    requires BetweenRounds(selector, w, m, timeouts) && selector !in w.own
    modifies selector
    ensures InProgress(w, m) && Live(selector.keys, w) && Pending(w, selector.keys, w.Searches(), timeouts)
    ensures selector.selected <= selector.keys && count == |selector.selected| && timeouts <= |w.settings.speeds|
    ensures selector.found == old(selector.found) + [Found(selector.selected, selector.keys)]
    ensures w.Searches() == old(w.Searches()) && w.Tries() == old(w.Tries())
  {
    StillPending(w, selector.keys, timeouts);
    count := selector.Select();
    assert selector.selected - {} == selector.selected;
  }

  /**
   What a round does after a select: it tries each key that was found, once; or with none it
   times out all that are left; or, if none are left, it is the last one.
   */
  ghost predicate RoundDid(w: World, f: Found, done: bool, ds: seq<Search>, ds': seq<Search>, tries: seq<nat>,
                           tries': seq<nat>) {
    && |ds| == |w.keys|
    && (done <==> f.Nothing())
    && (f.ready != {} ==> TriedOnce(w, f.ready, tries, tries') && WentOn(w, f.ready, ds, ds'))
    && (f.ready == {} ==> tries' == tries && ds' == TimedOut(w, f.keys, ds))
  }

  /** What follows the select of a round; done if no keys are left. */
  method RoundAfter(selector: Selector, count: nat, m: map<string, nat>, ghost w: World, ghost timeouts: nat)
    returns (done: bool, m': map<string, nat>, ghost timeouts': nat)
    requires InProgress(w, m) && w.CanEnd() && selector !in w.own && Live(selector.keys, w)
    requires Pending(w, selector.keys, w.Searches(), timeouts) && timeouts <= |w.settings.speeds|
    requires selector.selected <= selector.keys && count == |selector.selected|
    modifies selector`selected, w.own
    ensures BetweenRounds(selector, w, m', timeouts')
    ensures RoundDid(w, Found(old(selector.selected), selector.keys), done, old(w.Searches()), w.Searches(),
                     old(w.Tries()), w.Tries())
  {
    done, m', timeouts' := false, m, timeouts;
    if count > 0 {
      m' := HandleSelected(selector, m, w, timeouts);
    } else if selector.keys == {} {
      done := true;
      assert TimedOut(w, {}, w.Searches()) == w.Searches();
    } else {
      HandleTimeout(selector, m, w, timeouts);
      timeouts' := timeouts + 1;
    }
  }

  /** One round of configure; done if no keys are left. */
  method Round(selector: Selector, m: map<string, nat>, ghost w: World, ghost timeouts: nat)
    returns (done: bool, m': map<string, nat>, ghost timeouts': nat)
    requires BetweenRounds(selector, w, m, timeouts) && w.CanEnd() && selector !in w.own
    modifies selector, w.own
    ensures BetweenRounds(selector, w, m', timeouts')
    ensures done ==> forall i :: 0 <= i < |w.keys| ==> !w.Searches()[i].state.GoOn?
    ensures |selector.found| == |old(selector.found)| + 1 && old(selector.found) <= selector.found
    ensures RoundDid(w, selector.found[|old(selector.found)|], done, old(w.Searches()), w.Searches(), old(w.Tries()),
                     w.Tries())
  {
    ghost var n, ds, tries := |selector.found|, w.Searches(), w.Tries();
    var count := SelectKeys(selector, m, w, timeouts);
    ghost var f := Found(selector.selected, selector.keys);
    done, m', timeouts' := RoundAfter(selector, count, m, w, timeouts);
    assert RoundDid(w, f, done, ds, w.Searches(), tries, w.Tries()) && selector.found[n] == f;
  }

  /** Every key is registered and its search has not begun. */
  ghost predicate Registered(keys: set<SelectionKey>, w: World)
    reads w.own
  {
    && w.Valid() && (forall k :: k in keys ==> k in w.keys)
    && forall i :: 0 <= i < |w.keys| ==> w.keys[i] in keys && w.Searches()[i] == START
  }

  lemma NextPort(ports: seq<string>, ii: nat)
    requires ii < |ports|
    ensures ports[..ii + 1] == ports[..ii] + [ports[ii]]
  {
  }

  lemma OneMoreKey(keys: set<SelectionKey>, w: World, key: SelectionKey)
    requires Registered(keys, w) && key.Valid() && key.Own() !! w.own && key.ctx.Reached() == START
    requires key.ctx.settings == w.settings && key.channel.endless == w.endless
    ensures Registered(keys + {key}, w.With(key)) && w.With(key).Ports() == w.Ports() + [key.ctx.port]
  {
    w.Grows(key);
  }

  /** One more range adds its bytes to the good ones, and takes none away. */
  lemma OneMoreRange(s: Settings, s': Settings)
    requires |s'.ranges| > 0 && s.ranges == s'.ranges[..|s'.ranges| - 1]
    ensures forall c: byte :: s'.Good(c) <==> s.Good(c) || s'.ranges[|s'.ranges| - 1].In(c)
  {
    forall c: byte | s.Good(c) ensures s'.Good(c) {
      var i :| 0 <= i < |s.ranges| && s.ranges[i].In(c);
      assert s'.ranges[i].In(c);
    }
  }

  ghost predicate NeverNothing(found: seq<Found>) {
    forall n :: 0 <= n < |found| ==> !found[n].Nothing()
  }

  /** Rounds are made until a select finds nothing and no keys are left, or until the time is up. */
  ghost predicate RoundsUsed(found: seq<Found>, rounds: nat) {
    && |found| <= rounds
    && (|found| > 0 ==> NeverNothing(found[..|found| - 1]))
    && (|found| < rounds ==> |found| > 0 && found[|found| - 1].Nothing())
  }

  /** The loop of configure. */
  method Rounds(selector: Selector, ghost w: World, rounds: nat) returns (m: map<string, nat>)
    requires BetweenRounds(selector, w, map[], 0) && w.CanEnd() && selector !in w.own && selector.found == []
    modifies selector, w.own
    ensures InProgress(w, m) && RoundsUsed(selector.found, rounds)
    ensures |selector.found| < rounds ==> forall i :: 0 <= i < |w.keys| ==> !w.Searches()[i].state.GoOn?
  {
    m := map[];
    var left := rounds;
    ghost var timeouts := 0;
    while left > 0
      invariant BetweenRounds(selector, w, m, timeouts) && NeverNothing(selector.found)
      invariant 0 <= left <= rounds && |selector.found| == rounds - left
    {
      left := left - 1;
      var done;
      done, m, timeouts := Round(selector, m, w, timeouts);
      if done {
        break;
      }
    }
  }

  datatype Error = NoConfigurations | NoRanges

  class SpeedDetector {
    const testLength: int32
    const maxCount: int32
    var ranges: seq<Range>
    var speeds: seq<nat>

    constructor (testLength: int32, maxCount: int32)
      ensures this.testLength == testLength && this.maxCount == maxCount && ranges == [] && speeds == []
    {
      this.testLength, this.maxCount, ranges, speeds := testLength, maxCount, [], [];
    }

    function Settings(): Settings
      reads this
    {
      SpeedSearch.Settings(ranges, speeds, testLength, maxCount)
    }

    method AddByte(b: byte)
      modifies `ranges
      ensures ranges == old(ranges) + [Range(b, b)]
      ensures forall c: byte :: Settings().Good(c) <==> old(Settings()).Good(c) || c == b
    {
      ranges := ranges + [Range(b, b)];
      OneMoreRange(old(Settings()), Settings());
    }

    method AddRange(start: byte, end: byte)
      modifies `ranges
      ensures ranges == old(ranges) + [Range(start, end)]
      ensures forall c: byte :: Settings().Good(c) <==> old(Settings()).Good(c) || start <= c <= end
    {
      ranges := ranges + [Range(start, end)];
      OneMoreRange(old(Settings()), Settings());
    }

    method AddSpeed(speed: nat)
      modifies `speeds
      ensures speeds == old(speeds) + [speed]
    {
      speeds := speeds + [speed];
    }

    method AddSpeeds(all: seq<nat>)
      modifies `speeds
      ensures speeds == old(speeds) + all
    {
      for ii := 0 to |all|
        invariant speeds == old(speeds) + all[..ii]
      {
        AddSpeed(all[ii]);
      }
    }

    /** openAll and the registration of what it opened. */
    method RegisterAll(ports: seq<string>, endless: bool) returns (selector: Selector, ghost w: World)
      requires |speeds| > 0
      ensures fresh(selector) && fresh(w.own) && selector !in w.own
      ensures w.settings == Settings() && w.Ports() == ports && w.endless == endless && selector.found == []
      ensures selector.selected == {} && Registered(selector.keys, w)
    {
      selector := new Selector();
      w := World([], {}, Settings(), endless);
      for ii := 0 to |ports|
        invariant fresh(selector) && fresh(w.own) && selector !in w.own
        invariant selector.found == [] && selector.selected == {} && Registered(selector.keys, w)
        invariant w.settings == Settings() && w.endless == endless && w.Ports() == ports[..ii]
      {
        w := Register(selector, w, ports[ii], endless);
        NextPort(ports, ii);
      }
      assert ports[..|ports|] == ports;
    }

    method Register(selector: Selector, ghost w: World, port: string, endless: bool) returns (ghost w': World)
      requires w.endless == endless && |speeds| > 0 && w.settings == Settings() && selector !in w.own
      requires Registered(selector.keys, w)
      modifies selector`keys
      ensures fresh(w'.own - w.own) && selector !in w'.own && Registered(selector.keys, w')
      ensures w'.settings == w.settings && w'.endless == endless && w'.Ports() == w.Ports() + [port]
    {
      var key := Open(port, endless);
      OneMoreKey(selector.keys, w, key);
      w' := w.With(key);
      selector.keys := selector.keys + {key};
    }

    method Open(port: string, endless: bool) returns (key: SelectionKey)
      requires |speeds| > 0
      ensures fresh(key.Own()) && key.Valid() && key.ctx.port == port && key.ctx.settings == Settings()
      ensures key.ctx.Reached() == START && key.channel.endless == endless
    {
      var channel := new SerialChannel(speeds[0], endless);
      var ctx := new Ctx(port, Settings());
      key := new SelectionKey(channel, ctx);
    }

    /** endless: the lines may deliver something at every read; rounds: how often there is time left. */
    method Configure(ports: seq<string>, rounds: nat, endless: bool)
      returns (r: Result<map<string, nat>, Error>, ghost w: World, ghost used: Option<Selector>)
      requires speeds != [] && ranges != [] && endless ==> Settings().CanEnd()
      ensures r == Err(NoConfigurations) <==> speeds == []
      ensures r == Err(NoRanges) <==> speeds != [] && ranges == []
      ensures r.Ok? ==> forall port :: port in r.value ==> port in ports && r.value[port] in speeds
      ensures r.Ok? ==> w.settings == Settings() && w.Ports() == ports && InProgress(w, r.value)
      ensures r.Ok? ==>
        && used.Some? && RoundsUsed(used.value.found, rounds)
        && (|used.value.found| < rounds ==> forall i :: 0 <= i < |w.keys| ==> !w.Searches()[i].state.GoOn?)
    {
      w, used := World([], {}, Settings(), endless), None;
      if speeds == [] {
        return Err(NoConfigurations), w, used;
      }
      if ranges == [] {
        return Err(NoRanges), w, used;
      }
      var selector;
      selector, w := RegisterAll(ports, endless);
      used := Some(selector);
      var m := Rounds(selector, w, rounds);
      r := Ok(m);
    }
  }

  /**
   Every reported speed was found by a search at that port: its last testLength + 1 bytes up to
   event j - 1 were good, and all its bytes since event k, where the speed was set, were
   matched by a fresh matcher.  The bytes of the log are those taken from the channel.
   */
  lemma ReportIsJustified(w: World, m: map<string, nat>, port: string)
    returns (i: nat, k: nat, j: nat, bs: seq<byte>)
    requires InProgress(w, m) && port in m
    ensures i < |w.keys| && w.keys[i].ctx.port == port && w.keys[i].cancelled
    ensures var ctx := w.keys[i].ctx;
      && ctx.confNo < |w.settings.speeds| && m[port] == w.settings.speeds[ctx.confNo] == w.keys[i].channel.speed
      && 0 < j <= |ctx.log| && Run(w.settings, ctx.log[..j]) == ctx.Reached()
      && CurrentSince(w.settings, ctx.log[..j], ctx.Reached(), k, bs)
      && EndsWith(w.settings, bs, w.settings.testLength + 1, true)
      && w.keys[i].channel.taken == BytesIn(ctx.log)
  {
    i :| FoundAt(w.Ports(), w.settings.speeds, w.Searches(), i, port, m[port]);
    var ctx := w.keys[i].ctx;
    k, j, bs := SuccessIsJustified(w.settings, ctx.log);
  }

  /** The speed of the port when the byte of event n of the log was read. */
  ghost function HeardAt(k: SelectionKey, n: nat): nat
    requires k.Valid() && n < |k.ctx.log| && k.ctx.log[n].Byte?
    reads k.Own()
  {
    ByteOfEvent(k.ctx.settings, k.ctx.log, k.ctx.starts, n);
    k.channel.takenAt[|BytesIn(k.ctx.log[..n])|]
  }

  lemma HeardThen(k: SelectionKey, n: nat)
    requires k.Valid() && n < |k.ctx.log| && k.ctx.log[n].Byte?
    ensures HeardAt(k, n) == SpeedAt(k.ctx.settings, k.ctx.log, k.ctx.starts[n])
  {
    ByteOfEvent(k.ctx.settings, k.ctx.log, k.ctx.starts, n);
  }

  ghost predicate AllDifferent(speeds: seq<nat>) {
    forall c, d :: 0 <= c < d < |speeds| ==> speeds[c] != speeds[d]
  }

  /** The bytes from event first up to j were all read at the given speed. */
  ghost predicate HeardFrom(k: SelectionKey, first: nat, j: nat, speed: nat)
    requires k.Valid() && j <= |k.ctx.log| && forall n :: first <= n < j ==> k.ctx.log[n].Byte?
    reads k.Own()
  {
    forall n :: first <= n < j ==> HeardAt(k, n) == speed
  }

  /**
   A reported speed was heard, in that its justifying bytes were all read at that speed, if the
   read of the first of them began after the speed was set; and only then, if no speed is tried
   twice.
   */
  lemma ReportIsHeard(k: SelectionKey, since: nat, j: nat, bs: seq<byte>, first: nat)
    requires k.Valid() && first < j <= |k.ctx.log| && since <= first
    requires CurrentSince(k.ctx.settings, k.ctx.log[..j], k.ctx.Reached(), since, bs)
    requires k.ctx.Reached().confNo < |k.ctx.settings.speeds| && Run(k.ctx.settings, k.ctx.log[..j]) == k.ctx.Reached()
    ensures forall n :: first <= n < j ==> k.ctx.log[n].Byte?
    ensures var heard := HeardFrom(k, first, j, k.ctx.settings.speeds[k.ctx.Reached().confNo]);
      && (k.ctx.starts[first] >= since ==> heard)
      && (AllDifferent(k.ctx.settings.speeds) ==> (heard <==> k.ctx.starts[first] >= since))
  {
    var s, log, starts := k.ctx.settings, k.ctx.log, k.ctx.starts;
    forall n | first <= n < j ensures log[n].Byte? {
      assert log[..j][since..][n - since] == log[n];
    }
    ReceivedAsReported(s, log, starts, j, since, bs, first);
    forall n | first <= n < j
      ensures ReceivedWith(s, log, starts, n, j) ==> HeardAt(k, n) == s.speeds[k.ctx.Reached().confNo]
      ensures AllDifferent(s.speeds) && HeardAt(k, n) == s.speeds[k.ctx.Reached().confNo] ==>
                ReceivedWith(s, log, starts, n, j)
    {
      HeardThen(k, n);
      Onward(s, log, starts[n], j);
    }
  }

  /** How often the matcher of a port was called, whatever its channel delivered: no more than the search can take. */
  lemma MatchesAreBounded(k: SelectionKey)
    requires k.Valid() && k.ctx.settings.CanEnd()
    ensures k.ctx.matcher.calls <= |k.ctx.settings.speeds| * (k.ctx.settings.Limit() + 1)
  {
    CallsAreBounded(k.ctx.settings, k.ctx.log);
  }
}
