/** Loading, changing and saving peers: what the selective save guarantees, and what every run of transactions keeps. */
module PeerTable {
  import opened AHeader
  import opened Bits
  import opened CStrings
  import opened Decimal
  import opened Options
  import opened PeerState

  // ----- The dirty flags -------------------------------------------------------------------------

  /** The changes made to a loaded peer before it is saved. */
  datatype Change =
    | ByHeader(h: Fields, time: int)
    | ByGossip(h: Fields, time: int)
    | ByDegrade(time: int)
    | ByVerify(which: Which, fingerprint: string)
    | ByQrScan(fingerprint: string)

  /** A scanned public key is verified, and encryption is preferred from then on. */
  function Scanned(p: Peer, fingerprint: string): Peer {
    if FingerprintMatches(p.public, fingerprint) then
      Verified(p, PublicKey, fingerprint).(prefer := Mutual, toSave := p.toSave.(all := true))
    else p
  }

  function Changed(p: Peer, c: Change, fp: Fingerprinting): Peer {
    match c
    case ByHeader(h, time) => HeaderApplied(p, h, time, fp)
    case ByGossip(h, time) => GossipApplied(p, h, time, fp)
    case ByDegrade(time) => Degraded(p, time)
    case ByVerify(which, fingerprint) => Verified(p, which, fingerprint)
    case ByQrScan(fingerprint) => Scanned(p, fingerprint)
  }

  function AllChanged(p: Peer, changes: seq<Change>, fp: Fingerprinting): Peer
    decreases |changes|
  {
    if changes == [] then p else AllChanged(Changed(p, changes[0], fp), changes[1..], fp)
  }

  /** Fields that the flags do not mention are still those of the row. */
  predicate FlagsSound(r: Row, p: Peer) {
    && p.addr == Some(r.addr)
    && (!p.toSave.all ==>
          var q := Load(r);
          && p.prefer == q.prefer && p.public == q.public && p.gossip == q.gossip && p.verified == q.verified
          && (!p.toSave.timestamps ==>
                p.lastSeen == q.lastSeen && p.lastSeenAutocrypt == q.lastSeenAutocrypt && p.gossipTime == q.gossipTime))
  }

  lemma FlagsSoundKept(r: Row, p: Peer, c: Change, fp: Fingerprinting)
    requires FlagsSound(r, p)
    ensures FlagsSound(r, Changed(p, c, fp))
  {
  }

  lemma {:induction false} FlagsSoundAlways(r: Row, p: Peer, changes: seq<Change>, fp: Fingerprinting)
    requires FlagsSound(r, p)
    ensures FlagsSound(r, AllChanged(p, changes, fp))
    decreases |changes|
  {
    if changes != [] {
      FlagsSoundKept(r, p, changes[0], fp);
      FlagsSoundAlways(r, Changed(p, changes[0], fp), changes[1..], fp);
    }
  }

  /** No key column holds an empty blob. */
  predicate IsWritten(r: Row) {
    r.public.key != Some([]) && r.gossip.key != Some([]) && r.verified.key != Some([])
  }

  lemma TruncatedOnce(t: int)
    ensures AsInt32(AsInt32(t)) == AsInt32(t)
    ensures AsInt32(t) == t <==> -0x8000_0000 <= t < 0x8000_0000
  {
  }

  /** The flags are sound: after any changes the selective save leaves a row that loads like one written in full. */
  lemma SelectiveSaveIsFull(r: Row, changes: seq<Change>, fp: Fingerprinting)
    requires IsWritten(r)
    ensures var p := AllChanged(Load(r), changes, fp);
            Load(Save(r, p)) == Load(FullRow(r.addr, p))
  {
    hide AsInt32;
    FlagsSoundAlways(r, Load(r), changes, fp);
    TruncatedOnce(r.gossipTime);
  }

  predicate LaneLoaded(l: Lane) {
    l.fingerprint.Some? && l.key != Some([])
  }

  predicate Loaded(r: Row, p: Peer) {
    p.addr == Some(r.addr) && LaneLoaded(p.public) && LaneLoaded(p.gossip) && LaneLoaded(p.verified)
  }

  lemma {:induction false} LoadedAlways(r: Row, p: Peer, changes: seq<Change>, fp: Fingerprinting)
    requires Loaded(r, p)
    ensures Loaded(r, AllChanged(p, changes, fp))
    decreases |changes|
  {
    if changes != [] {
      LoadedAlways(r, Changed(p, changes[0], fp), changes[1..], fp);
    }
  }

  /** Loading what was saved gives the peer that was in memory exactly if its gossip time fits into 32 bits. */
  lemma LoadAfterSaveIff(r: Row, changes: seq<Change>, fp: Fingerprinting)
    requires IsWritten(r)
    ensures var p := AllChanged(Load(r), changes, fp);
            Load(Save(r, p)) == p.(toSave := ToSave(false, false), events := {}, sharing := None)
            <==> -0x8000_0000 <= p.gossipTime < 0x8000_0000
  {
    hide AsInt32, Save, AllChanged;
    var p := AllChanged(Load(r), changes, fp);
    SelectiveSaveIsFull(r, changes, fp);
    LoadedAlways(r, Load(r), changes, fp);
    TruncatedOnce(p.gossipTime);
  }

  // ----- Transactions ----------------------------------------------------------------------------

  /** The table of peers, by case-folded address. */
  type Table = map<string, Row>

  /** A received mail with at most one valid Autocrypt header of its sender; a gossiped header; a scanned fingerprint
      of the public key of the row found for it; a gossiped key verified by a verified sender. */
  datatype Transaction =
    | Mail(sender: string, header: Option<Fields>, report: bool, time: int)
    | Gossip(h: Fields, time: int)
    | Scan(key: string, fingerprint: string)
    | VerifyGossip(key: string)

  /** What the header parser and the search for the header of the sender make sure of. */
  predicate IsHeader(h: Fields) {
    h.addr.Some? && h.key != [] && h.preferEncrypt != Reset
  }

  predicate Enabled(t: Table, x: Transaction) {
    match x
    case Mail(sender, header, _, _) => header.Some? ==> IsHeader(header.value) && EqualNoCase(header.value.addr.value, sender)
    case Gossip(h, _) => IsHeader(h)
    case Scan(key, _) => key in t
    case VerifyGossip(key) => key in t
  }

  function RowKey(x: Transaction): string
    requires x.Gossip? ==> IsHeader(x.h)
  {
    match x
    case Mail(sender, _, _, _) => Fold(sender)
    case Gossip(h, _) => Fold(h.addr.value)
    case Scan(key, _) => key
    case VerifyGossip(key) => key
  }

  /** The change a transaction makes to a peer that is in the table. */
  function ChangeOf(p: Peer, x: Transaction): Option<Change> {
    match x
    case Mail(_, header, report, time) =>
      if time <= 0 then None
      else if header.Some? then Some(ByHeader(header.value, time))
      else if time > p.lastSeenAutocrypt && !report then Some(ByDegrade(time))
      else None
    case Gossip(h, time) => Some(ByGossip(h, time))
    case Scan(_, fingerprint) => Some(ByQrScan(fingerprint))
    case VerifyGossip(_) =>
      Some(ByVerify(GossipKey, if p.gossip.fingerprint.Some? then p.gossip.fingerprint.value else ""))
  }

  /** The peer a transaction creates if there is none. */
  function Created(x: Transaction, fp: Fingerprinting): Option<Peer> {
    match x
    case Mail(_, header, _, time) =>
      if time > 0 && header.Some? then Some(FromHeader(header.value, time, fp)) else None
    case Gossip(h, time) => Some(FromGossip(h, time, fp))
    case _ => None
  }

  /** Load, change and save; the events raised meanwhile are the second part. */
  function Performed(t: Table, x: Transaction, fp: Fingerprinting): (Table, set<Event>)
    requires Enabled(t, x)
  {
    var key := RowKey(x);
    if key in t then
      var p := Load(t[key]);
      match ChangeOf(p, x)
      case None => (t, {})
      case Some(c) =>
        var q := Changed(p, c, fp);
        (t[key := Save(t[key], q)], q.events)
    else
      match Created(x, fp)
      case None => (t, {})
      case Some(q) => (t[key := FullRow(q.addr.value, q)], q.events)
  }

  // ----- What every transaction keeps ------------------------------------------------------------

  predicate LaneMatches(l: Lane, fp: Fingerprinting) {
    if l.key.Some? then l.fingerprint == Some(fp(l.key.value)) else !Usable(l.fingerprint)
  }

  predicate RowHolds(r: Row, fp: Fingerprinting) {
    && IsWritten(r)
    && 0 <= r.lastSeenAutocrypt <= r.lastSeen
    && LaneMatches(r.public, fp) && LaneMatches(r.gossip, fp) && LaneMatches(r.verified, fp)
  }

  predicate TableHolds(t: Table, fp: Fingerprinting) {
    forall key | key in t :: RowHolds(t[key], fp) && Fold(t[key].addr) == key
  }

  predicate PeerHolds(p: Peer, fp: Fingerprinting) {
    && 0 <= p.lastSeenAutocrypt <= p.lastSeen
    && LaneMatches(p.public, fp) && LaneMatches(p.gossip, fp) && LaneMatches(p.verified, fp)
    && LaneLoaded(p.public) && LaneLoaded(p.gossip) && LaneLoaded(p.verified)
    && (p.sharing.Some? ==> p.verified.key.Some? && p.verified.key == LaneOf(p, p.sharing.value).key)
  }

  /** A change a transaction can make. */
  predicate IsChange(p: Peer, c: Change) {
    match c
    case ByHeader(h, time) => IsHeader(h) && time > 0
    case ByGossip(h, _) => IsHeader(h)
    case ByDegrade(time) => time > p.lastSeenAutocrypt
    case _ => true
  }

  predicate Verifies(c: Change) {
    c.ByVerify? || c.ByQrScan?
  }

  /** A non-empty fingerprint was replaced by a different or an empty one. */
  predicate Replaced(before: Lane, after: Lane) {
    Usable(before.fingerprint) && (!Usable(after.fingerprint) || !EqualNoCase(before.fingerprint.value, after.fingerprint.value))
  }

  /** The change writes a key of another fingerprint into a key that is also the verified one. */
  predicate Overwrites(p: Peer, c: Change, fp: Fingerprinting) {
    match c
    case ByHeader(h, time) =>
      p.sharing == Some(PublicKey) && Fits(p, h) && time > p.lastSeenAutocrypt && Some(fp(h.key)) != p.verified.fingerprint
    case ByGossip(h, time) =>
      p.sharing == Some(GossipKey) && Fits(p, h) && time > p.gossipTime && Some(fp(h.key)) != p.verified.fingerprint
    case _ => false
  }

  /** A change to a peer in memory keeps each fingerprint that of its key, and the rest of what holds of a peer, exactly
      if it does not overwrite a shared verified key. */
  lemma ChangeKeepsIff(p: Peer, c: Change, fp: Fingerprinting)
    requires PeerHolds(p, fp) && IsChange(p, c)
    ensures PeerHolds(Changed(p, c, fp), fp) <==> !Overwrites(p, c, fp)
  {
    hide EqualNoCase, Fold;
  }

  /** A peer that was just loaded shares no keys. */
  lemma ChangeKeeps(p: Peer, c: Change, fp: Fingerprinting)
    requires PeerHolds(p, fp) && IsChange(p, c) && p.sharing == None
    ensures PeerHolds(Changed(p, c, fp), fp) && Changed(p, c, fp).lastSeenAutocrypt >= p.lastSeenAutocrypt
    ensures !Verifies(c) ==> Changed(p, c, fp).verified == p.verified
  {
    ChangeKeepsIff(p, c, fp);
  }

  /** A key written into a lane raises an event exactly if it replaces a fingerprint. */
  lemma KeyEventTellsTruth(p: Peer, key: seq<byte>, which: Which, fp: Fingerprinting)
    requires LaneMatches(p.public, fp) && LaneMatches(p.gossip, fp) && key != []
    ensures var q := match which case PublicKey => WithPublicKey(p, key, fp) case GossipKey => WithGossipKey(p, key, fp);
            && q.prefer == p.prefer && (EncryptionPaused in q.events <==> EncryptionPaused in p.events)
            && (FingerprintChanged in q.events <==>
                FingerprintChanged in p.events || Replaced(p.public, q.public) || Replaced(p.gossip, q.gossip))
  {
  }

  lemma EventsTellTruth(p: Peer, c: Change, fp: Fingerprinting)
    requires PeerHolds(p, fp) && p.events == {} && IsChange(p, c)
    ensures var q := Changed(p, c, fp);
            && (EncryptionPaused in q.events <==> p.prefer == Mutual && q.prefer != Mutual)
            && (FingerprintChanged in q.events <==> Replaced(p.public, q.public) || Replaced(p.gossip, q.gossip))
  {
    NotReplaced(p.public);
    NotReplaced(p.gossip);
    hide WithPublicKey, WithGossipKey, Replaced, EqualNoCase, Fold;
    match c
    case ByHeader(h, time) =>
      var q := p.(lastSeen := time, lastSeenAutocrypt := time, toSave := p.toSave.(timestamps := true));
      KeyEventTellsTruth(WithPreference(q, h.preferEncrypt), h.key, PublicKey, fp);
    case ByGossip(h, time) =>
      KeyEventTellsTruth(p.(gossipTime := time, toSave := p.toSave.(timestamps := true)), h.key, GossipKey, fp);
    case _ =>
  }

  lemma LoadHolds(r: Row, fp: Fingerprinting)
    requires RowHolds(r, fp)
    ensures PeerHolds(Load(r), fp) && FlagsSound(r, Load(r))
  {
    hide AsInt32;
  }

  /** What is saved is what was in memory, but for missing fingerprints, and a gossip time read back shortened. */
  lemma SaveHolds(r: Row, q: Peer, fp: Fingerprinting)
    requires RowHolds(r, fp) && PeerHolds(q, fp) && FlagsSound(r, q)
    ensures var s := Save(r, q);
            && RowHolds(s, fp) && s.addr == r.addr
            && s.lastSeenAutocrypt == q.lastSeenAutocrypt && s.prefer == q.prefer
            && LoadedLane(s.public) == q.public && LoadedLane(s.gossip) == q.gossip && LoadedLane(s.verified) == q.verified
  {
    hide AsInt32;
  }

  lemma ChangeOfIsChange(p: Peer, x: Transaction, t: Table)
    requires Enabled(t, x) && ChangeOf(p, x).Some?
    ensures IsChange(p, ChangeOf(p, x).value)
    ensures Verifies(ChangeOf(p, x).value) <==> x.Scan? || x.VerifyGossip?
  {
  }

  /** Verifying a key succeeds exactly if the fingerprint is that of the key meant, and then the verified key is a key
      with this fingerprint and nothing else changes. */
  lemma VerifiedIff(p: Peer, which: Which, fingerprint: string, fp: Fingerprinting)
    requires PeerHolds(p, fp)
    ensures var q := Verified(p, which, fingerprint);
            var key := match which case PublicKey => p.public.key case GossipKey => p.gossip.key;
            && q == p.(verified := q.verified, sharing := q.sharing, toSave := q.toSave)
            && (q != p ==> key.Some? && q.verified.key == key && EqualNoCase(fp(key.value), fingerprint) && q.toSave.all)
            && (key.Some? && fp(key.value) != "" && EqualNoCase(fp(key.value), fingerprint) ==> q.verified.key == key)
  {
    assert fingerprint == "" ==> Fold(fingerprint) == [];
    var key := match which case PublicKey => p.public.key case GossipKey => p.gossip.key;
    assert key.Some? ==> |Fold(fp(key.value))| == |fp(key.value)|;
  }

  /** How a row may differ after transactions that do not verify a key, and after any transactions. */
  predicate Succeeds(before: Row, after: Row, verifies: bool) {
    && after.addr == before.addr
    && after.lastSeenAutocrypt >= before.lastSeenAutocrypt
    && (!verifies ==> LoadedLane(after.verified) == LoadedLane(before.verified))
  }

  predicate IsVerifying(x: Transaction) {
    x.Scan? || x.VerifyGossip?
  }

  /** The transaction verifies a key of the row. */
  predicate VerifiesRow(x: Transaction, key: string) {
    IsVerifying(x) && x.key == key
  }

  lemma RowAfterChange(r: Row, x: Transaction, t: Table, fp: Fingerprinting)
    requires RowHolds(r, fp) && Enabled(t, x) && ChangeOf(Load(r), x).Some?
    ensures var q := Changed(Load(r), ChangeOf(Load(r), x).value, fp);
            && RowHolds(Save(r, q), fp) && Succeeds(r, Save(r, q), IsVerifying(x))
            && LoadedLane(Save(r, q).public) == q.public && LoadedLane(Save(r, q).gossip) == q.gossip
            && Save(r, q).prefer == q.prefer
  {
    var p := Load(r);
    assert p.lastSeenAutocrypt == r.lastSeenAutocrypt && p.verified == LoadedLane(r.verified) && p.sharing == None;
    hide Load, Save, RowHolds, Changed, FlagsSound, PeerHolds;
    var c := ChangeOf(p, x).value;
    LoadHolds(r, fp);
    ChangeOfIsChange(p, x, t);
    ChangeKeeps(p, c, fp);
    FlagsSoundKept(r, p, c, fp);
    SaveHolds(r, Changed(p, c, fp), fp);
  }

  lemma RowAfterCreation(x: Transaction, t: Table, fp: Fingerprinting)
    requires Enabled(t, x) && Created(x, fp).Some?
    ensures var q := Created(x, fp).value;
            && q.addr.Some? && RowHolds(FullRow(q.addr.value, q), fp)
            && FullRow(q.addr.value, q).addr == q.addr.value && Fold(q.addr.value) == RowKey(x)
  {
  }

  lemma TransactionKeeps(t: Table, x: Transaction, fp: Fingerprinting)
    requires TableHolds(t, fp) && Enabled(t, x)
    ensures var t' := Performed(t, x, fp).0;
            && TableHolds(t', fp)
            && forall key | key in t ::
                 && key in t' && Succeeds(t[key], t'[key], VerifiesRow(x, key))
                 && (key != RowKey(x) ==> t'[key] == t[key])
  {
    hide RowHolds, ChangeOf, Created, Changed, Save, Load, FullRow;
    var key := RowKey(x);
    if key in t {
      if ChangeOf(Load(t[key]), x).Some? {
        RowAfterChange(t[key], x, t, fp);
      }
    } else if Created(x, fp).Some? {
      RowAfterCreation(x, t, fp);
    }
  }

  /** The events raised by a transaction tell exactly what happened to the row: encryption paused when it left the
      mutual state, fingerprint changed when a fingerprint was replaced. */
  lemma TransactionEvents(t: Table, x: Transaction, fp: Fingerprinting)
    requires TableHolds(t, fp) && Enabled(t, x)
    ensures var (t', events) := Performed(t, x, fp);
            var key := RowKey(x);
            if key in t then
              && (EncryptionPaused in events <==> t[key].prefer == Mutual && t'[key].prefer != Mutual)
              && (FingerprintChanged in events
                  <==> Replaced(t[key].public, t'[key].public) || Replaced(t[key].gossip, t'[key].gossip))
            else events == {}
  {
    var key := RowKey(x);
    if key in t {
      var r := t[key];
      var p := Load(r);
      if ChangeOf(p, x).Some? {
        hide Save, RowHolds, Changed, ChangeOf, AsInt32, LaneMatches;
        var c := ChangeOf(p, x).value;
        RowAfterChange(r, x, t, fp);
        LoadHolds(r, fp);
        ChangeOfIsChange(p, x, t);
        EventsTellTruth(p, c, fp);
        var q := Changed(p, c, fp);
        ReplacedLoaded(r.public, Save(r, q).public);
        ReplacedLoaded(r.gossip, Save(r, q).gossip);
      } else {
        NotReplaced(r.public);
        NotReplaced(r.gossip);
      }
    }
  }

  lemma ReplacedLoaded(before: Lane, after: Lane)
    ensures Replaced(LoadedLane(before), LoadedLane(after)) <==> Replaced(before, after)
  {
  }

  lemma NotReplaced(l: Lane)
    ensures !Replaced(l, l)
  {
  }

  // ----- What each transaction does --------------------------------------------------------------

  /** The rows differ at most in how a missing fingerprint is written. */
  predicate SameLanes(a: Row, b: Row) {
    LoadedLane(a.public) == LoadedLane(b.public) && LoadedLane(a.gossip) == LoadedLane(b.gossip)
    && LoadedLane(a.verified) == LoadedLane(b.verified)
  }

  predicate SameTimes(a: Row, b: Row) {
    a.lastSeen == b.lastSeen && a.lastSeenAutocrypt == b.lastSeenAutocrypt
    && AsInt32(a.gossipTime) == AsInt32(b.gossipTime)
  }

  /** A mail without a header pauses encryption with its sender if it is newer than the last header and no report, and
      leaves the keys alone; any other mail without a header changes nothing. */
  lemma MailWithoutHeader(t: Table, sender: string, report: bool, time: int, fp: Fingerprinting)
    requires TableHolds(t, fp)
    ensures var (u, events) := Performed(t, Mail(sender, None, report, time), fp);
            var key := Fold(sender);
            if key in t && time > 0 && time > t[key].lastSeenAutocrypt && !report then
              && key in u && u == t[key := u[key]] && u[key].addr == t[key].addr
              && u[key].prefer == Reset && u[key].lastSeen == time
              && u[key].lastSeenAutocrypt == t[key].lastSeenAutocrypt && SameLanes(u[key], t[key])
              && AsInt32(u[key].gossipTime) == AsInt32(t[key].gossipTime)
              && events == (if t[key].prefer == Mutual then {EncryptionPaused} else {})
            else u == t && events == {}
  {
    hide AsInt32, Fold;
    var key := Fold(sender);
    if key in t {
      assert RowHolds(t[key], fp);
      TruncatedOnce(t[key].gossipTime);
    }
  }

  /** A mail with a header that is newer than the last one sets the times, the preference and the public key, with its
      fingerprint, and nothing else; an older one changes nothing. */
  lemma MailWithHeader(t: Table, sender: string, h: Fields, report: bool, time: int, fp: Fingerprinting)
    requires TableHolds(t, fp) && Enabled(t, Mail(sender, Some(h), report, time)) && Fold(sender) in t
    ensures var u := Performed(t, Mail(sender, Some(h), report, time), fp).0;
            var key := Fold(sender);
            if time > 0 && time > t[key].lastSeenAutocrypt then
              && key in u && u == t[key := u[key]] && u[key].addr == t[key].addr
              && u[key].prefer == h.preferEncrypt && u[key].lastSeen == time && u[key].lastSeenAutocrypt == time
              && LoadedLane(u[key].public) == Lane(Some(h.key), Some(fp(h.key)))
              && LoadedLane(u[key].gossip) == LoadedLane(t[key].gossip)
              && LoadedLane(u[key].verified) == LoadedLane(t[key].verified)
              && AsInt32(u[key].gossipTime) == AsInt32(t[key].gossipTime)
            else u == t
  {
    hide AsInt32;
    var key := Fold(sender);
    assert RowHolds(t[key], fp);
    TruncatedOnce(t[key].gossipTime);
    assert Fold(h.addr.value) == key;
    HeaderOnRow(t[key], h, time, fp);
    hide Load, Save, HeaderApplied;
  }

  lemma HeaderOnRow(r: Row, h: Fields, time: int, fp: Fingerprinting)
    requires RowHolds(r, fp) && IsHeader(h) && EqualNoCase(r.addr, h.addr.value)
    ensures var s := Save(r, HeaderApplied(Load(r), h, time, fp));
            if time > r.lastSeenAutocrypt then
              && s.addr == r.addr && s.prefer == h.preferEncrypt && s.lastSeen == time && s.lastSeenAutocrypt == time
              && LoadedLane(s.public) == Lane(Some(h.key), Some(fp(h.key)))
              && LoadedLane(s.gossip) == LoadedLane(r.gossip) && LoadedLane(s.verified) == LoadedLane(r.verified)
              && AsInt32(s.gossipTime) == AsInt32(r.gossipTime)
            else s == r
  {
    hide AsInt32, EqualNoCase;
    TruncatedOnce(r.gossipTime);
  }

  /** Gossip that is newer than the last one, as its time is loaded, sets the gossiped key, with its fingerprint, and its
      time, and nothing else; older gossip changes nothing. */
  lemma GossipOnRow(t: Table, h: Fields, time: int, fp: Fingerprinting)
    requires TableHolds(t, fp) && IsHeader(h) && Fold(h.addr.value) in t
    ensures var u := Performed(t, Gossip(h, time), fp).0;
            var key := Fold(h.addr.value);
            if time > AsInt32(t[key].gossipTime) then
              && key in u && u == t[key := u[key]] && u[key].addr == t[key].addr
              && u[key].prefer == t[key].prefer && u[key].lastSeen == t[key].lastSeen
              && u[key].lastSeenAutocrypt == t[key].lastSeenAutocrypt && u[key].gossipTime == time
              && LoadedLane(u[key].gossip) == Lane(Some(h.key), Some(fp(h.key)))
              && LoadedLane(u[key].public) == LoadedLane(t[key].public)
              && LoadedLane(u[key].verified) == LoadedLane(t[key].verified)
            else u == t
  {
    hide AsInt32, Fold;
    assert RowHolds(t[Fold(h.addr.value)], fp);
  }

  /** Scanning the fingerprint of the public key of a peer verifies this key and prefers encryption from then on; any
      other fingerprint changes nothing. */
  lemma ScanOnRow(t: Table, key: string, fingerprint: string, fp: Fingerprinting)
    requires TableHolds(t, fp) && key in t
    ensures var u := Performed(t, Scan(key, fingerprint), fp).0;
            if fingerprint != "" && t[key].public.fingerprint.Some?
               && SameText(t[key].public.fingerprint.value, fingerprint) then
              && key in u && u == t[key := u[key]] && u[key].addr == t[key].addr && SameTimes(u[key], t[key])
              && u[key].prefer == Mutual && LoadedLane(u[key].verified) == LoadedLane(t[key].public)
              && LoadedLane(u[key].public) == LoadedLane(t[key].public)
              && LoadedLane(u[key].gossip) == LoadedLane(t[key].gossip)
            else u == t
  {
    hide AsInt32, Fold;
    var r := t[key];
    assert RowHolds(r, fp);
    TruncatedOnce(r.gossipTime);
    if r.public.fingerprint.Some? {
      EqualNoCaseIff(r.public.fingerprint.value, fingerprint);
      hide SameText;
    }
  }

  /** Gossip from a verified sender verifies the gossiped key of a peer, if it has one with a fingerprint. */
  lemma VerifyGossipOnRow(t: Table, key: string, fp: Fingerprinting)
    requires TableHolds(t, fp) && key in t
    ensures var u := Performed(t, VerifyGossip(key), fp).0;
            if Usable(t[key].gossip.fingerprint) then
              && key in u && u == t[key := u[key]] && u[key].addr == t[key].addr && SameTimes(u[key], t[key])
              && u[key].prefer == t[key].prefer && LoadedLane(u[key].verified) == LoadedLane(t[key].gossip)
              && LoadedLane(u[key].public) == LoadedLane(t[key].public)
              && LoadedLane(u[key].gossip) == LoadedLane(t[key].gossip)
            else u == t
  {
    hide AsInt32, Fold;
    assert RowHolds(t[key], fp);
    TruncatedOnce(t[key].gossipTime);
  }

  /** Without a row a mail with a header and a time, and any gossip, make one; nothing else does. */
  lemma FirstRow(t: Table, x: Transaction, fp: Fingerprinting)
    requires Enabled(t, x) && RowKey(x) !in t
    ensures var u := Performed(t, x, fp).0;
            if x.Mail? && x.header.Some? && x.time > 0 then
              var h := x.header.value;
              u == t[RowKey(x) := Row(h.addr.value, x.time, x.time, h.preferEncrypt, Lane(Some(h.key), Some(fp(h.key))),
                                      NO_LANE, 0, NO_LANE)]
            else if x.Gossip? then
              u == t[RowKey(x) := Row(x.h.addr.value, 0, 0, NoPreference, NO_LANE, Lane(Some(x.h.key), Some(fp(x.h.key))),
                                      x.time, NO_LANE)]
            else u == t
  {
  }

  /** A header that only confirms key and preference is saved as a change of the times alone. */
  lemma ConfirmingSavesTimes(p: Peer, h: Fields, time: int, fp: Fingerprinting)
    requires PeerHolds(p, fp) && Fits(p, h) && time > p.lastSeenAutocrypt && p.toSave == ToSave(false, false)
    ensures HeaderApplied(p, h, time, fp).toSave
            == ToSave(true, (h.preferEncrypt != Reset && h.preferEncrypt != p.prefer) || p.public.key != Some(h.key))
  {
    hide EqualNoCase;
  }

  /** No key is handed out while any key of the peer is without data; else the verified key where it is demanded, and
      otherwise the public key, or without one the gossiped key. */
  lemma PeekedIff(p: Peer, minVerified: bool, key: seq<byte>)
    ensures PeekedKey(p, minVerified) == Some(key)
            <==> && (forall l | l in [p.public, p.gossip, p.verified] :: l.key != Some([]))
                 && Some(key) == (if minVerified then p.verified.key
                                  else if p.public.key.Some? then p.public.key else p.gossip.key)
  {
    assert [p.public, p.gossip, p.verified][0] == p.public && [p.public, p.gossip, p.verified][1] == p.gossip
           && [p.public, p.gossip, p.verified][2] == p.verified;
  }

  /** Applied to a peer in memory, a header changes nothing exactly if it is of another address, has no key, or is not
      newer than the last one. */
  lemma HeaderIgnoredIff(p: Peer, h: Fields, time: int, fp: Fingerprinting)
    ensures HeaderApplied(p, h, time, fp) == p
            <==> p.addr == None || h.addr == None || !SameText(p.addr.value, h.addr.value) || h.key == []
                 || time <= p.lastSeenAutocrypt
  {
    if p.addr.Some? && h.addr.Some? {
      EqualNoCaseIff(p.addr.value, h.addr.value);
      hide SameText, EqualNoCase;
    }
  }

  lemma GossipIgnoredIff(p: Peer, h: Fields, time: int, fp: Fingerprinting)
    ensures GossipApplied(p, h, time, fp) == p
            <==> p.addr == None || h.addr == None || !SameText(p.addr.value, h.addr.value) || h.key == []
                 || time <= p.gossipTime
  {
    if p.addr.Some? && h.addr.Some? {
      EqualNoCaseIff(p.addr.value, h.addr.value);
      hide SameText, EqualNoCase;
    }
  }

  // ----- Runs ------------------------------------------------------------------------------------

  predicate IsRun(run: seq<Transaction>, t: Table, fp: Fingerprinting)
    decreases |run|
  {
    run == [] || (Enabled(t, run[0]) && IsRun(run[1..], Performed(t, run[0], fp).0, fp))
  }

  function After(run: seq<Transaction>, t: Table, fp: Fingerprinting): Table
    requires IsRun(run, t, fp)
    decreases |run|
  {
    if run == [] then t else After(run[1..], Performed(t, run[0], fp).0, fp)
  }

  /** Over every run from a sound table: rows stay, each stored fingerprint is that of its key, the last Autocrypt time
      never decreases and never exceeds the last time, and the verified key of a row changes only by verifying a key of
      this row. */
  lemma {:induction false} RunKeeps(run: seq<Transaction>, t: Table, fp: Fingerprinting)
    requires TableHolds(t, fp) && IsRun(run, t, fp)
    ensures TableHolds(After(run, t, fp), fp)
    ensures var u := After(run, t, fp);
            forall key | key in t :: key in u && Succeeds(t[key], u[key], exists x :: x in run && VerifiesRow(x, key))
    decreases |run|
  {
    hide TableHolds, Performed, Enabled;
    if run != [] {
      var u := Performed(t, run[0], fp).0;
      TransactionKeeps(t, run[0], fp);
      RunKeeps(run[1..], u, fp);
      assert run[0] in run && forall x | x in run[1..] :: x in run;
    }
  }
}
