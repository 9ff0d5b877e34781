/** Headers and gossip of one address, in any order of arrival, settle on the newest of each. */
module PeerConvergence {
  import opened AHeader
  import opened Bits
  import opened CStrings
  import opened Decimal
  import opened Options
  import opened PeerState
  import opened PeerTable

  // ----- The newest message of a lane ------------------------------------------------------------

  /** Mails with a header, and gossip, of the peer; both with positive times. */
  predicate IsNews(x: Transaction, key: string) {
    || (x.Mail? && x.header.Some? && IsHeader(x.header.value) && x.time > 0
        && Fold(x.sender) == key && EqualNoCase(x.header.value.addr.value, x.sender))
    || (x.Gossip? && IsHeader(x.h) && x.time > 0 && Fold(x.h.addr.value) == key)
  }

  predicate AllNews(run: seq<Transaction>, key: string) {
    forall x | x in run :: IsNews(x, key)
  }

  function TimeOf(x: Transaction): int {
    if x.Mail? || x.Gossip? then x.time else 0
  }

  /** Different mails have different times, and so has different gossip. */
  predicate DistinctTimes(run: seq<Transaction>) {
    forall x, y | x in run && y in run && x != y && x.Gossip? == y.Gossip? :: TimeOf(x) != TimeOf(y)
  }

  predicate IsNewest(x: Transaction, run: seq<Transaction>) {
    x in run && forall y | y in run && y.Gossip? == x.Gossip? :: TimeOf(y) <= TimeOf(x)
  }

  /** The newest mail, or the newest gossip. */
  function Newest(run: seq<Transaction>, gossip: bool): Option<Transaction> {
    if run == [] then None
    else
      var before, last := Newest(run[..|run| - 1], gossip), run[|run| - 1];
      if last.Gossip? == gossip && (before.None? || TimeOf(last) > TimeOf(before.value)) then Some(last) else before
  }

  lemma {:induction false} NewestIsNewest(run: seq<Transaction>, gossip: bool)
    ensures match Newest(run, gossip)
            case Some(x) => x.Gossip? == gossip && IsNewest(x, run)
            case None => forall y | y in run :: y.Gossip? != gossip
  {
    if run != [] {
      var before, last := run[..|run| - 1], run[|run| - 1];
      NewestIsNewest(before, gossip);
      assert run == before + [last];
    }
  }

  lemma NewestOfOrders(run: seq<Transaction>, order: seq<Transaction>, gossip: bool)
    requires multiset(run) == multiset(order) && DistinctTimes(run)
    ensures Newest(run, gossip) == Newest(order, gossip)
  {
    NewestIsNewest(run, gossip);
    NewestIsNewest(order, gossip);
    assert forall x :: x in run <==> x in multiset(run);
    assert forall x :: x in order <==> x in multiset(order);
  }

  // ----- What the row says -----------------------------------------------------------------------

  function LaneWith(key: seq<byte>, fp: Fingerprinting): Lane {
    Lane(Some(key), Some(fp(key)))
  }

  const EMPTY_LANE := Lane(None, Some(""))

  predicate HeaderSettled(r: Row, newest: Option<Transaction>, fp: Fingerprinting)
    requires newest.Some? ==> newest.value.Mail? && newest.value.header.Some?
  {
    match newest
    case None =>
      r.lastSeen == 0 && r.lastSeenAutocrypt == 0 && r.prefer == NoPreference && LoadedLane(r.public) == EMPTY_LANE
    case Some(x) =>
      && r.lastSeen == x.time && r.lastSeenAutocrypt == x.time
      && r.prefer == x.header.value.preferEncrypt && LoadedLane(r.public) == LaneWith(x.header.value.key, fp)
  }

  /** The gossip time is stored as it came or as it was read back. */
  predicate GossipSettled(r: Row, newest: Option<Transaction>, fp: Fingerprinting)
    requires newest.Some? ==> newest.value.Gossip?
  {
    match newest
    case None => r.gossipTime == 0 && LoadedLane(r.gossip) == EMPTY_LANE
    case Some(x) =>
      (r.gossipTime == x.time || r.gossipTime == AsInt32(x.time)) && LoadedLane(r.gossip) == LaneWith(x.h.key, fp)
  }

  predicate Settled(r: Row, run: seq<Transaction>, key: string, fp: Fingerprinting)
    requires AllNews(run, key)
  {
    NewestIsNewest(run, false);
    NewestIsNewest(run, true);
    && HeaderSettled(r, Newest(run, false), fp) && GossipSettled(r, Newest(run, true), fp)
    && LoadedLane(r.verified) == EMPTY_LANE
  }

  /** Every gossip is at most as new as the newest one reads when it is loaded again. */
  predicate GossipTimesFit(run: seq<Transaction>) {
    match Newest(run, true)
    case None => true
    case Some(g) => forall x | x in run && x.Gossip? && x != g :: TimeOf(x) <= AsInt32(TimeOf(g))
  }

  // ----- One step --------------------------------------------------------------------------------

  lemma SavedTimes(r: Row, q: Peer)
    requires FlagsSound(r, q)
    ensures var s := Save(r, q);
            && s.lastSeen == q.lastSeen && s.lastSeenAutocrypt == q.lastSeenAutocrypt
            && (s.gossipTime == q.gossipTime || (q.gossipTime == AsInt32(r.gossipTime) && s.gossipTime == r.gossipTime))
  {
    hide AsInt32;
  }

  function Later(newest: Option<Transaction>, x: Transaction): Option<Transaction> {
    if newest.None? || TimeOf(x) > TimeOf(newest.value) then Some(x) else newest
  }

  predicate IsMailOrNone(x: Option<Transaction>) {
    x.Some? ==> x.value.Mail? && x.value.header.Some?
  }

  predicate IsGossipOrNone(x: Option<Transaction>) {
    x.Some? ==> x.value.Gossip? && x.value.time > 0
  }

  lemma HeaderStep(r: Row, x: Transaction, h: Option<Transaction>, g: Option<Transaction>, key: string, fp: Fingerprinting)
    requires RowHolds(r, fp) && Fold(r.addr) == key && IsNews(x, key) && x.Mail?
    requires IsMailOrNone(h) && IsGossipOrNone(g) && HeaderSettled(r, h, fp) && GossipSettled(r, g, fp)
    ensures var s := Save(r, HeaderApplied(Load(r), x.header.value, x.time, fp));
            && HeaderSettled(s, Later(h, x), fp) && GossipSettled(s, g, fp)
            && LoadedLane(s.verified) == LoadedLane(r.verified)
  {
    hide AsInt32, Save, RowHolds, PeerHolds;
    var p := Load(r);
    var c := ByHeader(x.header.value, x.time);
    var q := Changed(p, c, fp);
    LoadHolds(r, fp);
    ChangeKeeps(p, c, fp);
    FlagsSoundKept(r, p, c, fp);
    SaveHolds(r, q, fp);
    SavedTimes(r, q);
    assert Fits(p, x.header.value);
    if g.Some? {
      TruncatedOnce(g.value.time);
    } else {
      TruncatedOnce(0);
    }
  }

  lemma GossipStep(r: Row, x: Transaction, h: Option<Transaction>, g: Option<Transaction>, key: string, fp: Fingerprinting)
    requires RowHolds(r, fp) && Fold(r.addr) == key && IsNews(x, key) && x.Gossip?
    requires IsMailOrNone(h) && IsGossipOrNone(g) && HeaderSettled(r, h, fp) && GossipSettled(r, g, fp)
    requires g.Some? && TimeOf(x) <= TimeOf(g.value) && x != g.value ==> TimeOf(x) <= AsInt32(TimeOf(g.value))
    ensures var s := Save(r, GossipApplied(Load(r), x.h, x.time, fp));
            && HeaderSettled(s, h, fp) && GossipSettled(s, Later(g, x), fp)
            && LoadedLane(s.verified) == LoadedLane(r.verified)
  {
    hide AsInt32, Save, RowHolds, PeerHolds;
    var p := Load(r);
    var c := ByGossip(x.h, x.time);
    var q := Changed(p, c, fp);
    LoadHolds(r, fp);
    ChangeKeeps(p, c, fp);
    FlagsSoundKept(r, p, c, fp);
    SaveHolds(r, q, fp);
    SavedTimes(r, q);
    assert Fits(p, x.h);
    if g.Some? {
      TruncatedOnce(g.value.time);
      TruncatedIsLess(g.value.time);
    } else {
      TruncatedOnce(0);
    }
  }

  lemma TruncatedIsLess(t: int)
    requires t >= 0
    ensures AsInt32(t) <= t && AsInt32(t) < 0x8000_0000
  {
  }

  // ----- All orders ------------------------------------------------------------------------------

  lemma {:induction false} NewsRuns(run: seq<Transaction>, t: Table, key: string, fp: Fingerprinting)
    requires AllNews(run, key)
    ensures IsRun(run, t, fp)
    decreases |run|
  {
    if run != [] {
      assert run[0] in run;
      NewsRuns(run[1..], Performed(t, run[0], fp).0, key, fp);
    }
  }

  lemma {:induction false} AfterLast(run: seq<Transaction>, x: Transaction, t: Table, key: string, fp: Fingerprinting)
    requires AllNews(run, key) && IsNews(x, key)
    ensures IsRun(run + [x], t, fp) && IsRun(run, t, fp)
    ensures After(run + [x], t, fp) == Performed(After(run, t, fp), x, fp).0
    decreases |run|
  {
    hide Performed;
    NewsRuns(run, t, key, fp);
    NewsRuns(run + [x], t, key, fp);
    if run == [] {
      assert [] + [x] == [x] && [x][1..] == [];
    } else {
      assert run[0] in run && (run + [x])[1..] == run[1..] + [x];
      AfterLast(run[1..], x, Performed(t, run[0], fp).0, key, fp);
    }
  }

  lemma NewestOfLast(run: seq<Transaction>, x: Transaction, gossip: bool)
    ensures Newest(run + [x], gossip) == if x.Gossip? == gossip then Later(Newest(run, gossip), x) else Newest(run, gossip)
  {
    assert (run + [x])[..|run|] == run;
  }

  lemma NewestIsNews(run: seq<Transaction>, key: string)
    requires AllNews(run, key)
    ensures IsMailOrNone(Newest(run, false)) && IsGossipOrNone(Newest(run, true))
  {
    NewestIsNewest(run, false);
    NewestIsNewest(run, true);
  }

  /** If all gossip times fit, those of every part of the run do. */
  lemma GossipTimesFitBefore(run: seq<Transaction>, x: Transaction, key: string)
    requires AllNews(run + [x], key) && GossipTimesFit(run + [x])
    ensures GossipTimesFit(run)
    ensures var g := Newest(run, true);
            x.Gossip? && g.Some? && TimeOf(x) <= TimeOf(g.value) && x != g.value ==> TimeOf(x) <= AsInt32(TimeOf(g.value))
  {
    hide AsInt32;
    NewestOfLast(run, x, true);
    NewestIsNewest(run, true);
    assert forall y | y in run :: y in run + [x] && IsNews(y, key);
    assert x in run + [x];
    var g, g' := Newest(run, true), Newest(run + [x], true);
    if g.Some? && g' != g {
      TruncatedIsLess(TimeOf(x));
      TruncatedOnce(TimeOf(g.value));
    }
  }

  lemma FirstStep(x: Transaction, t: Table, key: string, fp: Fingerprinting)
    requires IsNews(x, key) && key !in t
    ensures var u := Performed(t, x, fp).0;
            && key in u
            && HeaderSettled(u[key], if x.Mail? then Some(x) else None, fp)
            && GossipSettled(u[key], if x.Gossip? then Some(x) else None, fp)
            && LoadedLane(u[key].verified) == EMPTY_LANE
  {
    hide AsInt32;
  }

  lemma LaterStep(x: Transaction, t: Table, key: string, h: Option<Transaction>, g: Option<Transaction>,
                  fp: Fingerprinting)
    requires IsNews(x, key) && key in t && TableHolds(t, fp)
    requires IsMailOrNone(h) && IsGossipOrNone(g) && HeaderSettled(t[key], h, fp) && GossipSettled(t[key], g, fp)
    requires x.Gossip? && g.Some? && TimeOf(x) <= TimeOf(g.value) && x != g.value ==> TimeOf(x) <= AsInt32(TimeOf(g.value))
    ensures var u := Performed(t, x, fp).0;
            && key in u
            && HeaderSettled(u[key], if x.Mail? then Later(h, x) else h, fp)
            && GossipSettled(u[key], if x.Gossip? then Later(g, x) else g, fp)
            && LoadedLane(u[key].verified) == LoadedLane(t[key].verified)
  {
    hide AsInt32, HeaderApplied, GossipApplied, Save, Load, RowHolds, HeaderSettled, GossipSettled;
    if x.Mail? {
      HeaderStep(t[key], x, h, g, key, fp);
    } else {
      GossipStep(t[key], x, h, g, key, fp);
    }
  }

  lemma NextSettled(before: seq<Transaction>, x: Transaction, u: Table, key: string, fp: Fingerprinting)
    requires AllNews(before, key) && AllNews(before + [x], key) && GossipTimesFit(before + [x]) && TableHolds(u, fp)
    requires if before == [] then key !in u else key in u && Settled(u[key], before, key, fp)
    ensures IsNews(x, key) && var v := Performed(u, x, fp).0;
            TableHolds(v, fp) && key in v && Settled(v[key], before + [x], key, fp)
  {
    hide TableHolds, Performed, HeaderSettled, GossipSettled, GossipTimesFit, AsInt32, Newest, IsNews;
    assert x in before + [x];
    NewsIsEnabled(u, x, key);
    GossipTimesFitBefore(before, x, key);
    TransactionKeeps(u, x, fp);
    NewestIsNews(before, key);
    NewestOfLast(before, x, true);
    NewestOfLast(before, x, false);
    if before == [] {
      NewestOfNothing();
      FirstStep(x, u, key, fp);
    } else {
      LaterStep(x, u, key, Newest(before, false), Newest(before, true), fp);
    }
  }

  lemma NewsIsEnabled(t: Table, x: Transaction, key: string)
    requires IsNews(x, key)
    ensures Enabled(t, x) && (x.Mail? || x.Gossip?)
  {
  }

  lemma NewestOfNothing()
    ensures Newest([], true) == None && Newest([], false) == None
  {
  }

  /** After any news the row says what the newest mail and the newest gossip say. */
  lemma {:induction false} Settles(run: seq<Transaction>, t: Table, key: string, fp: Fingerprinting)
    requires AllNews(run, key) && GossipTimesFit(run) && TableHolds(t, fp) && key !in t
    ensures IsRun(run, t, fp) && TableHolds(After(run, t, fp), fp)
    ensures var u := After(run, t, fp); if run == [] then key !in u else key in u && Settled(u[key], run, key, fp)
  {
    hide TableHolds, Performed, Settled, GossipTimesFit, IsNews;
    NewsRuns(run, t, key, fp);
    if run != [] {
      var before, x := run[..|run| - 1], run[|run| - 1];
      assert run == before + [x] && x in run;
      GossipTimesFitBefore(before, x, key);
      Settles(before, t, key, fp);
      AfterLast(before, x, t, key, fp);
      NextSettled(before, x, After(before, t, fp), key, fp);
    }
  }

  predicate Reordered(order: seq<Transaction>, run: seq<Transaction>) {
    multiset(order) == multiset(run)
  }

  lemma ReorderedNews(order: seq<Transaction>, run: seq<Transaction>, key: string)
    requires Reordered(order, run) && AllNews(run, key) && DistinctTimes(run)
    ensures AllNews(order, key) && DistinctTimes(order) && |order| == |run|
    ensures GossipTimesFit(order) <==> GossipTimesFit(run)
    ensures Newest(order, true) == Newest(run, true) && Newest(order, false) == Newest(run, false)
  {
    hide AsInt32, Newest;
    assert |multiset(order)| == |order| && |multiset(run)| == |run|;
    assert forall x :: x in run <==> x in multiset(run);
    assert forall x :: x in order <==> x in multiset(order);
    assert forall x :: x in run <==> x in order;
    NewestOfOrders(run, order, true);
    NewestOfOrders(run, order, false);
  }

  /** Convergence: every order of the same news, mails and gossip interleaved in any way, ends with the same peer but
      for the spelling of its address. */
  lemma OrderDoesNotMatter(run: seq<Transaction>, order: seq<Transaction>, t: Table, key: string, fp: Fingerprinting)
    requires AllNews(run, key) && DistinctTimes(run) && GossipTimesFit(run) && Reordered(order, run) && run != []
    requires TableHolds(t, fp) && key !in t
    ensures IsRun(run, t, fp) && IsRun(order, t, fp) && key in After(run, t, fp) && key in After(order, t, fp)
    ensures Load(After(run, t, fp)[key]).(addr := None) == Load(After(order, t, fp)[key]).(addr := None)
  {
    hide TableHolds, After, AsInt32, GossipTimesFit;
    ReorderedNews(order, run, key);
    Settles(run, t, key, fp);
    Settles(order, t, key, fp);
    NewestIsNewest(run, true);
    if Newest(run, true).Some? {
      TruncatedOnce(Newest(run, true).value.time);
    }
  }

  // ----- Gossip times beyond 32 bits -------------------------------------------------------------

  /** What a table knows about the gossip time of a peer: it is not from the future of the run. */
  lemma {:induction false} GossipTimeIsSeen(run: seq<Transaction>, t: Table, key: string, fp: Fingerprinting, bound: int)
    requires AllNews(run, key) && IsRun(run, t, fp) && bound > 0 && TableHolds(t, fp)
    requires key in t ==> AsInt32(t[key].gossipTime) < bound
    requires forall x | x in run && x.Gossip? :: x.time < bound
    ensures TableHolds(After(run, t, fp), fp)
    ensures key in After(run, t, fp) ==> AsInt32(After(run, t, fp)[key].gossipTime) < bound
    decreases |run|
  {
    hide TableHolds, Performed, AsInt32;
    if run != [] {
      assert run[0] in run;
      TransactionKeeps(t, run[0], fp);
      GossipTimeStep(t, run[0], key, fp, bound);
      GossipTimeIsSeen(run[1..], Performed(t, run[0], fp).0, key, fp, bound);
    }
  }

  lemma GossipTimeStep(t: Table, x: Transaction, key: string, fp: Fingerprinting, bound: int)
    requires IsNews(x, key) && TableHolds(t, fp) && bound > 0
    requires key in t ==> AsInt32(t[key].gossipTime) < bound
    requires x.Gossip? ==> x.time < bound
    ensures key in Performed(t, x, fp).0 && AsInt32(Performed(t, x, fp).0[key].gossipTime) < bound
  {
    hide AsInt32, RowHolds;
    TruncatedOnce(0);
    TruncatedIsLess(x.time);
    if key in t {
      TruncatedOnce(t[key].gossipTime);
    }
  }

  /** Gossip newer than the loaded time is taken: its time and key are stored. */
  lemma NewGossipIsTaken(t: Table, x: Transaction, key: string, fp: Fingerprinting)
    requires IsNews(x, key) && x.Gossip? && TableHolds(t, fp)
    requires key in t ==> x.time > AsInt32(t[key].gossipTime)
    ensures key in Performed(t, x, fp).0 && Performed(t, x, fp).0[key].gossipTime == x.time
  {
    hide AsInt32;
  }

  lemma TakeOut(run: seq<Transaction>, x: Transaction) returns (rest: seq<Transaction>)
    requires x in run
    ensures multiset(rest + [x]) == multiset(run)
    ensures forall y | y in rest :: y in run
  {
    var i :| 0 <= i < |run| && run[i] == x;
    rest := run[..i] + run[i + 1..];
    assert run == run[..i] + [x] + run[i + 1..];
  }

  predicate NoRepeats(run: seq<Transaction>) {
    forall x | x in run :: multiset(run)[x] == 1
  }

  /** The run with the newest gossip `g` and the gossip `x` moved to its end. */
  lemma MovedBack(run: seq<Transaction>, g: Transaction, x: Transaction) returns (rest: seq<Transaction>)
    requires g in run && x in run && x != g && NoRepeats(run)
    ensures Reordered(rest + [g] + [x], run)
    ensures g !in rest && forall y | y in rest :: y in run
  {
    var rest1 := TakeOut(run, x);
    assert multiset(run)[g] == multiset(rest1 + [x])[g];
    rest := TakeOut(rest1, g);
    assert multiset(rest + [g] + [x]) == multiset(rest + [g]) + multiset([x]) == multiset(rest1) + multiset([x]);
    assert multiset(rest1 + [x])[g] == 1 && multiset(rest1)[g] == multiset(rest + [g])[g] == multiset(rest)[g] + 1;
  }

  /** If an older gossip does not fit, an order in which it comes last ends with its time. */
  lemma LastGossipWins(rest: seq<Transaction>, g: Transaction, x: Transaction, t: Table, key: string, fp: Fingerprinting)
    requires AllNews(rest, key) && IsNews(g, key) && IsNews(x, key) && g.Gossip? && x.Gossip?
    requires forall y | y in rest && y.Gossip? :: y.time < g.time
    requires AsInt32(g.time) < x.time
    requires TableHolds(t, fp) && key !in t
    ensures var order := rest + [g] + [x];
            && AllNews(order, key) && IsRun(order, t, fp) && key in After(order, t, fp)
            && After(order, t, fp)[key].gossipTime == x.time
  {
    hide AsInt32, TableHolds, Performed, After;
    NewsRuns(rest, t, key, fp);
    GossipTimeIsSeen(rest, t, key, fp, g.time);
    AfterLast(rest, g, t, key, fp);
    NewGossipIsTaken(After(rest, t, fp), g, key, fp);
    TransactionKeeps(After(rest, t, fp), g, fp);
    AfterLast(rest + [g], x, t, key, fp);
    NewGossipIsTaken(After(rest + [g], t, fp), x, key, fp);
  }

  lemma SomeOrderFails(run: seq<Transaction>, t: Table, key: string, fp: Fingerprinting)
    returns (order: seq<Transaction>)
    requires AllNews(run, key) && DistinctTimes(run) && NoRepeats(run) && !GossipTimesFit(run)
    requires TableHolds(t, fp) && key !in t
    ensures Reordered(order, run) && AllNews(order, key) && IsRun(order, t, fp) && key in After(order, t, fp)
    ensures IsGossipOrNone(Newest(run, true)) && !GossipSettled(After(order, t, fp)[key], Newest(run, true), fp)
  {
    hide AsInt32, TableHolds, Performed, After, Newest, NoRepeats;
    NewestIsNewest(run, true);
    var g := Newest(run, true).value;
    var x :| x in run && x.Gossip? && x != g && TimeOf(x) > AsInt32(TimeOf(g));
    var rest := MovedBack(run, g, x);
    order := rest + [g] + [x];
    LastGossipWins(rest, g, x, t, key, fp);
  }

  /** All orders of the same news end with the newest gossip exactly if every older gossip is at most as new as the
      newest one reads when it is loaded, as is the case for all times below 2^31. */
  lemma ConvergenceIff(run: seq<Transaction>, t: Table, key: string, fp: Fingerprinting)
    requires AllNews(run, key) && DistinctTimes(run) && NoRepeats(run) && run != []
    requires TableHolds(t, fp) && key !in t
    ensures IsGossipOrNone(Newest(run, true))
    ensures (forall order | Reordered(order, run) ::
               IsRun(order, t, fp) && key in After(order, t, fp)
               && GossipSettled(After(order, t, fp)[key], Newest(run, true), fp))
            <==> GossipTimesFit(run)
  {
    hide AsInt32, TableHolds, After, IsRun, GossipTimesFit, GossipSettled;
    NewestIsNews(run, key);
    if GossipTimesFit(run) {
      forall order | Reordered(order, run)
        ensures IsRun(order, t, fp) && key in After(order, t, fp)
                && GossipSettled(After(order, t, fp)[key], Newest(run, true), fp)
      {
        ReorderedNews(order, run, key);
        Settles(order, t, key, fp);
      }
    } else {
      var order := SomeOrderFails(run, t, key, fp);
      assert Reordered(order, run);
    }
  }

  lemma SmallTimesFit(run: seq<Transaction>)
    requires forall x | x in run && x.Gossip? :: x.time < 0x8000_0000
    requires forall x | x in run && x.Gossip? :: x.time > 0
    ensures GossipTimesFit(run)
  {
    NewestIsNewest(run, true);
  }
}
