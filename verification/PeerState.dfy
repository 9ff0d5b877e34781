/** The Autocrypt state of a peer: the operations on it, its row in the database, and the object in memory. */
module PeerState {
  import opened AHeader
  import opened Bits
  import opened CStrings
  import opened Decimal
  import opened Options

  /** A key and its fingerprint as they are kept side by side. */
  datatype Lane = Lane(key: Option<seq<byte>>, fingerprint: Option<string>)

  const NO_LANE := Lane(None, None)

  datatype Event = EncryptionPaused | FingerprintChanged

  /** The bits DC_SAVE_TIMESTAMPS and DC_SAVE_ALL. */
  datatype ToSave = ToSave(timestamps: bool, all: bool)

  /** `sharing` is the lane whose key is the very same key as the verified one, after a verification in memory. */
  datatype Peer = Peer(addr: Option<string>, lastSeen: int, lastSeenAutocrypt: int, prefer: Preference, public: Lane,
                       gossip: Lane, gossipTime: int, verified: Lane, sharing: Option<Which>, toSave: ToSave,
                       events: set<Event>)

  const NO_PEER := Peer(None, 0, 0, NoPreference, NO_LANE, NO_LANE, 0, NO_LANE, None, ToSave(false, false), {})

  /** How OpenPGP computes the fingerprint of a key; the empty string stands for an error. */
  type Fingerprinting = seq<byte> -> string

  // ----- Operations ------------------------------------------------------------------------------

  predicate Usable(fingerprint: Option<string>) {
    fingerprint.Some? && fingerprint.value != ""
  }

  /** The new fingerprint of a key is not the old one, or one of them is missing. */
  predicate Differs(old_: Option<string>, new_: string) {
    !Usable(old_) || new_ == "" || !EqualNoCase(old_.value, new_)
  }

  function RecalculatedLane(l: Lane, fp: Fingerprinting): Lane {
    if l.key.Some? then l.(fingerprint := Some(fp(l.key.value))) else l
  }

  predicate LaneDiffers(l: Lane, fp: Fingerprinting) {
    l.key.Some? && Differs(l.fingerprint, fp(l.key.value))
  }

  /** The lane had a fingerprint, and the new one is another one or none. */
  predicate LaneDegrades(l: Lane, fp: Fingerprinting) {
    LaneDiffers(l, fp) && Usable(l.fingerprint)
  }

  function Recalculated(p: Peer, fp: Fingerprinting): Peer {
    p.(public := RecalculatedLane(p.public, fp),
       gossip := RecalculatedLane(p.gossip, fp),
       toSave := p.toSave.(all := p.toSave.all || LaneDiffers(p.public, fp) || LaneDiffers(p.gossip, fp)),
       events := p.events + if LaneDegrades(p.public, fp) || LaneDegrades(p.gossip, fp) then {FingerprintChanged} else {})
  }

  /** Keys without data equal no key. */
  predicate KeyEquals(key: Option<seq<byte>>, other: seq<byte>) {
    key.Some? && key.value != [] && other != [] && key.value == other
  }

  function FromHeader(h: Fields, time: int, fp: Fingerprinting): Peer {
    Recalculated(NO_PEER.(addr := h.addr, lastSeen := time, lastSeenAutocrypt := time, toSave := ToSave(false, true),
                          prefer := h.preferEncrypt, public := Lane(Some(h.key), None)), fp)
  }

  function FromGossip(h: Fields, time: int, fp: Fingerprinting): Peer {
    Recalculated(NO_PEER.(addr := h.addr, gossipTime := time, toSave := ToSave(false, true),
                          gossip := Lane(Some(h.key), None)), fp)
  }

  function Degraded(p: Peer, time: int): Peer {
    p.(events := if p.prefer == Mutual then p.events + {EncryptionPaused} else p.events,
       prefer := Reset, lastSeen := time, toSave := ToSave(false, true))
  }

  predicate Fits(p: Peer, h: Fields) {
    p.addr.Some? && h.addr.Some? && h.key != [] && EqualNoCase(p.addr.value, h.addr.value)
  }

  function WithPreference(p: Peer, prefer: Preference): Peer {
    if prefer != Reset && prefer != p.prefer then
      p.(events := if p.prefer == Mutual then p.events + {EncryptionPaused} else p.events,
         prefer := prefer, toSave := p.toSave.(all := true))
    else p
  }

  /** A key written into a lane is also written into the verified key if the two are the same key. */
  function WithSharedKey(p: Peer, which: Which, key: seq<byte>): Peer {
    if p.sharing == Some(which) then p.(verified := p.verified.(key := Some(key))) else p
  }

  function WithPublicKey(p: Peer, key: seq<byte>, fp: Fingerprinting): Peer {
    if KeyEquals(p.public.key, key) then p
    else
      var q := Recalculated(WithSharedKey(p, PublicKey, key).(public := p.public.(key := Some(key))), fp);
      q.(toSave := q.toSave.(all := true))
  }

  function HeaderApplied(p: Peer, h: Fields, time: int, fp: Fingerprinting): Peer {
    if !Fits(p, h) || time <= p.lastSeenAutocrypt then p
    else
      var q := p.(lastSeen := time, lastSeenAutocrypt := time, toSave := p.toSave.(timestamps := true));
      WithPublicKey(WithPreference(q, h.preferEncrypt), h.key, fp)
  }

  function WithGossipKey(p: Peer, key: seq<byte>, fp: Fingerprinting): Peer {
    if KeyEquals(p.gossip.key, key) then p
    else
      var q := Recalculated(WithSharedKey(p, GossipKey, key).(gossip := p.gossip.(key := Some(key))), fp);
      q.(toSave := q.toSave.(all := true))
  }

  function GossipApplied(p: Peer, h: Fields, time: int, fp: Fingerprinting): Peer {
    if !Fits(p, h) || time <= p.gossipTime then p
    else WithGossipKey(p.(gossipTime := time, toSave := p.toSave.(timestamps := true)), h.key, fp)
  }

  datatype Which = GossipKey | PublicKey

  function LaneOf(p: Peer, which: Which): Lane {
    match which case GossipKey => p.gossip case PublicKey => p.public
  }

  predicate FingerprintMatches(l: Lane, fingerprint: string) {
    Usable(l.fingerprint) && fingerprint != "" && EqualNoCase(l.fingerprint.value, fingerprint)
  }

  function Verified(p: Peer, which: Which, fingerprint: string): Peer {
    if FingerprintMatches(LaneOf(p, which), fingerprint) then
      p.(verified := LaneOf(p, which), sharing := if LaneOf(p, which).key.Some? then Some(which) else None,
         toSave := p.toSave.(all := true))
    else p
  }

  function PeekedKey(p: Peer, minVerified: bool): Option<seq<byte>> {
    if p.public.key == Some([]) || p.gossip.key == Some([]) || p.verified.key == Some([]) then None
    else if minVerified then p.verified.key
    else if p.public.key.Some? then p.public.key
    else p.gossip.key
  }

  // ----- The row in the database -----------------------------------------------------------------

  datatype Row = Row(addr: string, lastSeen: int, lastSeenAutocrypt: int, prefer: Preference, public: Lane,
                     gossip: Lane, gossipTime: int, verified: Lane)

  /** A missing fingerprint is loaded as the empty string. */
  function LoadedLane(l: Lane): Lane {
    l.(fingerprint := Some(if l.fingerprint.Some? then l.fingerprint.value else ""))
  }

  /** All times are read as 64 bit numbers but the gossip time, which is read as a 32 bit number. */
  function Load(r: Row): Peer {
    Peer(Some(r.addr), r.lastSeen, r.lastSeenAutocrypt, r.prefer, LoadedLane(r.public), LoadedLane(r.gossip),
         AsInt32(r.gossipTime), LoadedLane(r.verified), None, ToSave(false, false), {})
  }

  /** A key without data is stored as NULL. */
  function StoredLane(l: Lane): Lane {
    l.(key := if l.key == Some([]) then None else l.key)
  }

  function FullRow(addr: string, p: Peer): Row {
    Row(addr, p.lastSeen, p.lastSeenAutocrypt, p.prefer, StoredLane(p.public), StoredLane(p.gossip), p.gossipTime,
        StoredLane(p.verified))
  }

  /** Saving to an existing row writes everything, the timestamps, or nothing. */
  function Save(r: Row, p: Peer): Row {
    if p.toSave.all then FullRow(r.addr, p)
    else if p.toSave.timestamps then
      r.(lastSeen := p.lastSeen, lastSeenAutocrypt := p.lastSeenAutocrypt, gossipTime := p.gossipTime)
    else r
  }

  // ----- The object in memory --------------------------------------------------------------------

  class Key {
    var binary: seq<byte>

    constructor ()
      ensures binary == []
    {
      binary := [];
    }

    method SetFromKey(other: seq<byte>)
      modifies this
      ensures binary == other
    {
      binary := other;
    }
  }

  /** The keys are objects of their own, and a verified key is the very object of the key that was verified. */
  class PeerObject {
    var addr: Option<string>
    var lastSeen: int
    var lastSeenAutocrypt: int
    var prefer: Preference
    var publicKey: Key?
    var publicFingerprint: Option<string>
    var gossipKey: Key?
    var gossipTime: int
    var gossipFingerprint: Option<string>
    var verifiedKey: Key?
    var verifiedFingerprint: Option<string>
    var toSave: ToSave
    var events: set<Event>

    ghost predicate Valid()
      reads this
    {
      publicKey != null ==> publicKey != gossipKey
    }

    ghost function LaneValue(key: Key?, fingerprint: Option<string>): Lane
      reads key
    {
      Lane(if key == null then None else Some(key.binary), fingerprint)
    }

    ghost function Sharing(): Option<Which>
      reads this
    {
      if verifiedKey == null then None
      else if verifiedKey == publicKey then Some(PublicKey)
      else if verifiedKey == gossipKey then Some(GossipKey)
      else None
    }

    ghost function Value(): Peer
      reads this, publicKey, gossipKey, verifiedKey
    {
      Peer(addr, lastSeen, lastSeenAutocrypt, prefer, LaneValue(publicKey, publicFingerprint),
           LaneValue(gossipKey, gossipFingerprint), gossipTime, LaneValue(verifiedKey, verifiedFingerprint), Sharing(),
           toSave, events)
    }

    constructor ()
      ensures Valid() && Value() == NO_PEER
    {
      addr, lastSeen, lastSeenAutocrypt, prefer := None, 0, 0, NoPreference;
      publicKey, publicFingerprint, gossipKey, gossipTime, gossipFingerprint := null, None, null, 0, None;
      verifiedKey, verifiedFingerprint, toSave, events := null, None, ToSave(false, false), {};
    }

    method Empty()
      modifies this
      ensures Valid() && Value() == NO_PEER && publicKey == gossipKey == verifiedKey == null
    {
      lastSeen, lastSeenAutocrypt, prefer, toSave := 0, 0, NoPreference, ToSave(false, false);
      addr, publicFingerprint, gossipFingerprint, verifiedFingerprint := None, None, None, None;
      publicKey, gossipTime, gossipKey, verifiedKey, events := null, 0, null, null, {};
    }

    method RecalcFingerprint(fp: Fingerprinting)
      modifies this`publicFingerprint, this`gossipFingerprint, this`toSave, this`events
      ensures Value() == Recalculated(old(Value()), fp)
    {
      RecalcPublic(fp);
      RecalcGossip(fp);
    }

    method RecalcPublic(fp: Fingerprinting)
      modifies this`publicFingerprint, this`toSave, this`events
      ensures var p := old(Value());
              Value() == p.(public := RecalculatedLane(p.public, fp),
                            toSave := p.toSave.(all := p.toSave.all || LaneDiffers(p.public, fp)),
                            events := p.events + if LaneDegrades(p.public, fp) then {FingerprintChanged} else {})
    {
      if publicKey != null {
        var before := publicFingerprint;
        publicFingerprint := Some(fp(publicKey.binary));
        if before == None || before.value == "" || publicFingerprint.value == ""
          || !EqualNoCase(before.value, publicFingerprint.value) {
          toSave := toSave.(all := true);
          if before.Some? && before.value != "" {
            events := events + {FingerprintChanged};
          }
        }
      }
    }

    method RecalcGossip(fp: Fingerprinting)
      modifies this`gossipFingerprint, this`toSave, this`events
      ensures var p := old(Value());
              Value() == p.(gossip := RecalculatedLane(p.gossip, fp),
                            toSave := p.toSave.(all := p.toSave.all || LaneDiffers(p.gossip, fp)),
                            events := p.events + if LaneDegrades(p.gossip, fp) then {FingerprintChanged} else {})
    {
      if gossipKey != null {
        var before := gossipFingerprint;
        gossipFingerprint := Some(fp(gossipKey.binary));
        if before == None || before.value == "" || gossipFingerprint.value == ""
          || !EqualNoCase(before.value, gossipFingerprint.value) {
          toSave := toSave.(all := true);
          if before.Some? && before.value != "" {
            events := events + {FingerprintChanged};
          }
        }
      }
    }

    method InitFromHeader(h: Fields, time: int, fp: Fingerprinting)
      modifies this
      ensures Valid() && Value() == FromHeader(h, time, fp) && verifiedKey == null
    {
      Empty();
      addr := h.addr;
      lastSeen, lastSeenAutocrypt := time, time;
      toSave := ToSave(false, true);
      prefer := h.preferEncrypt;
      publicKey := new Key();
      publicKey.SetFromKey(h.key);
      RecalcFingerprint(fp);
    }

    method InitFromGossip(h: Fields, time: int, fp: Fingerprinting)
      modifies this
      ensures Valid() && Value() == FromGossip(h, time, fp) && verifiedKey == null
    {
      Empty();
      addr := h.addr;
      gossipTime := time;
      toSave := ToSave(false, true);
      gossipKey := new Key();
      gossipKey.SetFromKey(h.key);
      RecalcFingerprint(fp);
    }

    method DegradeEncryption(time: int)
      modifies this`events, this`prefer, this`lastSeen, this`toSave
      ensures Value() == Degraded(old(Value()), time)
    {
      if prefer == Mutual {
        events := events + {EncryptionPaused};
      }
      prefer := Reset;
      lastSeen := time;
      toSave := ToSave(false, true);
    }

    method SetPreference(value: Preference)
      modifies this`events, this`prefer, this`toSave
      ensures Value() == WithPreference(old(Value()), value)
    {
      if (value == Mutual || value == NoPreference) && value != prefer {
        if prefer == Mutual && value != Mutual {
          events := events + {EncryptionPaused};
        }
        prefer := value;
        toSave := toSave.(all := true);
      }
    }

    /** A new public key is written into the key object, so it also becomes the verified key if that is the same
        object. */
    method SetPublicKey(key: seq<byte>, fp: Fingerprinting)
      requires Valid()
      modifies this`publicKey, this`publicFingerprint, this`gossipFingerprint, this`toSave, this`events, publicKey
      ensures Valid()
      ensures Value() == WithPublicKey(old(Value()), key, fp)
    {
      hide Recalculated;
      if publicKey == null {
        publicKey := new Key();
      }
      if !(publicKey.binary != [] && key != [] && publicKey.binary == key) {
        publicKey.SetFromKey(key);
        RecalcFingerprint(fp);
        toSave := toSave.(all := true);
      }
    }

    method SetGossipKey(key: seq<byte>, fp: Fingerprinting)
      requires Valid()
      modifies this`gossipKey, this`publicFingerprint, this`gossipFingerprint, this`toSave, this`events, gossipKey
      ensures Valid()
      ensures Value() == WithGossipKey(old(Value()), key, fp)
    {
      hide Recalculated;
      if gossipKey == null {
        gossipKey := new Key();
      }
      if !(gossipKey.binary != [] && key != [] && gossipKey.binary == key) {
        gossipKey.SetFromKey(key);
        RecalcFingerprint(fp);
        toSave := toSave.(all := true);
      }
    }

    method ApplyHeader(h: Fields, time: int, fp: Fingerprinting)
      requires Valid()
      modifies this, publicKey
      ensures Valid()
      ensures Value() == HeaderApplied(old(Value()), h, time, fp)
    {
      hide WithPublicKey, WithPreference, EqualNoCase;
      if addr == None || h.addr == None || h.key == [] || !EqualNoCase(addr.value, h.addr.value) {
        return;
      }
      if time > lastSeenAutocrypt {
        lastSeen, lastSeenAutocrypt := time, time;
        toSave := toSave.(timestamps := true);
        SetPreference(h.preferEncrypt);
        SetPublicKey(h.key, fp);
      }
    }

    method ApplyGossip(h: Fields, time: int, fp: Fingerprinting)
      requires Valid()
      modifies this, gossipKey
      ensures Valid()
      ensures Value() == GossipApplied(old(Value()), h, time, fp)
    {
      hide WithGossipKey, EqualNoCase;
      if addr == None || h.addr == None || h.key == [] || !EqualNoCase(addr.value, h.addr.value) {
        return;
      }
      if time > gossipTime {
        gossipTime := time;
        toSave := toSave.(timestamps := true);
        SetGossipKey(h.key, fp);
      }
    }

    /** The verified key becomes the same object as the key it is verified by. */
    method SetVerified(which: Which, fingerprint: string) returns (success: bool)
      requires Valid()
      modifies this`toSave, this`verifiedKey, this`verifiedFingerprint
      ensures success == FingerprintMatches(LaneOf(old(Value()), which), fingerprint)
      ensures Value() == Verified(old(Value()), which, fingerprint)
    {
      success := false;
      if which == PublicKey && publicFingerprint.Some? && publicFingerprint.value != "" && fingerprint != ""
        && EqualNoCase(publicFingerprint.value, fingerprint) {
        toSave := toSave.(all := true);
        verifiedKey := publicKey;
        verifiedFingerprint := publicFingerprint;
        success := true;
      }
      if which == GossipKey && gossipFingerprint.Some? && gossipFingerprint.value != "" && fingerprint != ""
        && EqualNoCase(gossipFingerprint.value, fingerprint) {
        toSave := toSave.(all := true);
        verifiedKey := gossipKey;
        verifiedFingerprint := gossipFingerprint;
        success := true;
      }
    }

    method PeekKey(minVerified: bool) returns (key: Key?)
      ensures LaneValue(key, None).key == PeekedKey(Value(), minVerified)
    {
      if (publicKey != null && publicKey.binary == []) || (gossipKey != null && gossipKey.binary == [])
        || (verifiedKey != null && verifiedKey.binary == []) {
        return null;
      }
      if minVerified {
        return verifiedKey;
      }
      if publicKey != null {
        return publicKey;
      }
      key := gossipKey;
    }

    method LoadKey(l: Lane) returns (k: Key?)
      ensures LaneValue(k, LoadedLane(l).fingerprint) == LoadedLane(l) && (k != null ==> fresh(k))
    {
      if l.key == None {
        return null;
      }
      k := new Key();
      k.SetFromKey(l.key.value);
    }

    /** Loading makes key objects of their own for all three keys. */
    method LoadKeys(r: Row)
      modifies this`publicKey, this`gossipKey, this`verifiedKey
      ensures Valid() && Sharing() == None
      ensures LaneValue(publicKey, LoadedLane(r.public).fingerprint) == LoadedLane(r.public)
      ensures LaneValue(gossipKey, LoadedLane(r.gossip).fingerprint) == LoadedLane(r.gossip)
      ensures LaneValue(verifiedKey, LoadedLane(r.verified).fingerprint) == LoadedLane(r.verified)
    {
      hide LoadedLane;
      publicKey := LoadKey(r.public);
      gossipKey := LoadKey(r.gossip);
      verifiedKey := LoadKey(r.verified);
    }

    method SetFromRow(r: Row)
      modifies this
      ensures Valid() && Value() == Load(r)
    {
      hide AsInt32, LoadedLane;
      Empty();
      addr := Some(r.addr);
      lastSeen := r.lastSeen;
      lastSeenAutocrypt := r.lastSeenAutocrypt;
      prefer := r.prefer;
      gossipTime := AsInt32(r.gossipTime);
      publicFingerprint := LoadedLane(r.public).fingerprint;
      gossipFingerprint := LoadedLane(r.gossip).fingerprint;
      verifiedFingerprint := LoadedLane(r.verified).fingerprint;
      LoadKeys(r);
    }

    method KeyColumn(key: Key?) returns (blob: Option<seq<byte>>)
      ensures blob == StoredLane(LaneValue(key, None)).key
    {
      blob := if key == null || key.binary == [] then None else Some(key.binary);
    }

    method SaveToRow(r: Row) returns (row: Row)
      ensures row == Save(r, Value())
    {
      row := r;
      if toSave.all {
        var k0 := KeyColumn(publicKey);
        var k1 := KeyColumn(gossipKey);
        var k2 := KeyColumn(verifiedKey);
        row := Row(r.addr, lastSeen, lastSeenAutocrypt, prefer, Lane(k0, publicFingerprint), Lane(k1, gossipFingerprint),
                   gossipTime, Lane(k2, verifiedFingerprint));
      } else if toSave.timestamps {
        row := row.(lastSeen := lastSeen, lastSeenAutocrypt := lastSeenAutocrypt, gossipTime := gossipTime);
      }
    }
  }
}
