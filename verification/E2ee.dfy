/** The decision whether and for whom an outgoing message is encrypted. */
module E2ee {
  import opened AHeader
  import opened Bits
  import opened CStrings
  import opened Options
  import opened PeerConvergence
  import opened PeerState
  import opened PeerTable

  /** The account: its configured address, its key pair as far as it can be loaded, and the setting for encryption. */
  datatype Account = Account(addr: Option<string>, publicKey: Option<seq<byte>>, hasPrivateKey: bool, e2eeEnabled: bool)

  /** What the sender of the message asks for. */
  datatype Demand = Demand(forceUnencrypted: bool, guaranteed: bool, minVerified: bool)

  /** The key to be used for a recipient, if the message may be encrypted for them. */
  function KeyFor(t: Table, addr: string, d: Demand): Option<seq<byte>> {
    if Fold(addr) !in t then None
    else
      var p := Load(t[Fold(addr)]);
      if p.prefer == Mutual || d.guaranteed then PeekedKey(p, d.minVerified) else None
  }

  /** The keyring holds one key for each recipient other than `self`, in their order: key `k` is that of the recipient at
      position `at[k]`. */
  ghost predicate OneKeyEach(keyring: seq<seq<byte>>, at: seq<nat>, recipients: seq<string>, self: string, d: Demand,
                             t: Table) {
    && |at| == |keyring|
    && (forall k | 0 <= k < |at| :: at[k] < |recipients| && !SameText(recipients[at[k]], self)
                                    && KeyFor(t, recipients[at[k]], d) == Some(keyring[k]))
    && (forall k, l | 0 <= k < l < |at| :: at[k] < at[l])
    && (forall i: nat | i < |recipients| && !SameText(recipients[i], self) :: i in at)
  }

  ghost predicate IsKeyring(keyring: seq<seq<byte>>, recipients: seq<string>, self: string, d: Demand, t: Table) {
    exists at :: OneKeyEach(keyring, at, recipients, self, d, t)
  }

  lemma OneMoreSelf(keyring: seq<seq<byte>>, at: seq<nat>, recipients: seq<string>, n: nat, self: string, d: Demand,
                    t: Table)
    requires n < |recipients| && OneKeyEach(keyring, at, recipients[..n], self, d, t) && SameText(recipients[n], self)
    ensures OneKeyEach(keyring, at, recipients[..n + 1], self, d, t)
  {
    hide SameText, KeyFor;
    assert forall i | 0 <= i < n :: recipients[..n + 1][i] == recipients[..n][i];
  }

  lemma OneMoreKey(keyring: seq<seq<byte>>, at: seq<nat>, recipients: seq<string>, n: nat, self: string, d: Demand,
                   t: Table, key: seq<byte>)
    requires n < |recipients| && OneKeyEach(keyring, at, recipients[..n], self, d, t)
    requires !SameText(recipients[n], self) && KeyFor(t, recipients[n], d) == Some(key)
    ensures OneKeyEach(keyring + [key], at + [n], recipients[..n + 1], self, d, t)
  {
    hide SameText, KeyFor;
    assert forall i | 0 <= i < n :: recipients[..n + 1][i] == recipients[..n][i];
    assert (at + [n])[|at|] == n;
    assert forall i | i in at :: i in at + [n];
  }

  /** One turn of the recipient loop: load the peer and peek its key. */
  method PeekRecipientKey(t: Table, addr: string, d: Demand) returns (key: Option<seq<byte>>)
    ensures key == KeyFor(t, addr, d)
  {
    hide Load, PeekedKey, Fold;
    if Fold(addr) !in t {
      return None;
    }
    var peer := new PeerObject();
    peer.SetFromRow(t[Fold(addr)]);
    var peeked := peer.PeekKey(d.minVerified);
    if peeked == null || !(peer.prefer == Mutual || d.guaranteed) {
      return None;
    }
    key := Some(peeked.binary);
  }

  /** A message is encrypted exactly if it is not forced plain, encryption is wanted or guaranteed, the own keys are there,
      and each other recipient has a key that may be used; it is encrypted to these keys and then to the own one. */
  method Encrypt(a: Account, recipients: seq<string>, d: Demand, t: Table)
    returns (doEncrypt: bool, keyring: seq<seq<byte>>)
    ensures doEncrypt <==>
              && a.addr.Some? && a.publicKey.Some? && a.hasPrivateKey
              && !d.forceUnencrypted && (a.e2eeEnabled || d.guaranteed)
              && forall r | r in recipients :: SameText(r, a.addr.value) || KeyFor(t, r, d).Some?
    ensures doEncrypt ==> keyring != [] && keyring[|keyring| - 1] == a.publicKey.value
                          && IsKeyring(keyring[..|keyring| - 1], recipients, a.addr.value, d, t)
  {
    hide KeyFor, EqualNoCase, SameText;
    doEncrypt, keyring := false, [];
    ghost var at: seq<nat> := [];
    if a.addr == None || a.publicKey == None {
      return;
    }
    if a.e2eeEnabled || d.guaranteed {
      doEncrypt := true;
      for i := 0 to |recipients|
        invariant doEncrypt && OneKeyEach(keyring, at, recipients[..i], a.addr.value, d, t)
        invariant forall k | 0 <= k < i :: SameText(recipients[k], a.addr.value) || KeyFor(t, recipients[k], d).Some?
      {
        EqualNoCaseIff(recipients[i], a.addr.value);
        hide OneKeyEach;
        if !EqualNoCase(recipients[i], a.addr.value) {
          var key := PeekRecipientKey(t, recipients[i], d);
          if key == None {
            doEncrypt := false;
            break;
          }
          OneMoreKey(keyring, at, recipients, i, a.addr.value, d, t, key.value);
          keyring := keyring + [key.value];
          at := at + [i];
        } else {
          OneMoreSelf(keyring, at, recipients, i, a.addr.value, d, t);
        }
      }
      assert recipients[..|recipients|] == recipients;
    }
    if doEncrypt {
      keyring := keyring + [a.publicKey.value];
      if !a.hasPrivateKey {
        doEncrypt := false;
      }
    }
    if d.forceUnencrypted {
      doEncrypt := false;
    }
    assert doEncrypt ==> keyring[..|keyring| - 1] + [a.publicKey.value] == keyring;
  }

  /** Where verified keys are demanded, the key used for a recipient is the verified one, with its own fingerprint. */
  lemma DemandedKeyIsVerified(t: Table, addr: string, d: Demand, fp: Fingerprinting)
    requires TableHolds(t, fp) && d.minVerified && KeyFor(t, addr, d).Some?
    ensures t[Fold(addr)].verified == Lane(KeyFor(t, addr, d), Some(fp(KeyFor(t, addr, d).value)))
  {
  }

  /** No headers, gossip or mails without a header change who gets a guaranteed message under a verified key: only
      verifying does. */
  lemma VerifiedKeyringIsStable(run: seq<Transaction>, t: Table, addr: string, d: Demand, fp: Fingerprinting)
    requires TableHolds(t, fp) && IsRun(run, t, fp) && Fold(addr) in t
    requires d.minVerified && d.guaranteed && forall x | x in run :: !VerifiesRow(x, Fold(addr))
    ensures KeyFor(After(run, t, fp), addr, d) == KeyFor(t, addr, d)
  {
    RunKeeps(run, t, fp);
    assert TableHolds(After(run, t, fp), fp);
  }

  /** The key for a recipient, whatever the case their address is written in: none without a row, or if the row does not
      prefer encryption and it is not guaranteed; else the verified key where that is demanded, and otherwise the public
      key, or without one the gossiped key. */
  lemma KeyForIff(t: Table, addr: string, d: Demand, fp: Fingerprinting)
    requires TableHolds(t, fp)
    ensures forall key | key in t && SameText(t[key].addr, addr) ::
              KeyFor(t, addr, d)
              == (if t[key].prefer != Mutual && !d.guaranteed then None
                  else if d.minVerified then t[key].verified.key
                  else if t[key].public.key.Some? then t[key].public.key
                  else t[key].gossip.key)
    ensures (forall key | key in t :: !SameText(t[key].addr, addr)) ==> KeyFor(t, addr, d) == None
  {
    forall key | key in t ensures SameText(t[key].addr, addr) <==> key == Fold(addr) {
      EqualNoCaseIff(t[key].addr, addr);
    }
    if Fold(addr) in t {
      assert IsWritten(t[Fold(addr)]);
    }
  }

  lemma RowHasAddress(t: Table, addr: string, fp: Fingerprinting)
    requires TableHolds(t, fp) && Fold(addr) in t
    ensures SameText(t[Fold(addr)].addr, addr)
  {
    EqualNoCaseIff(t[Fold(addr)].addr, addr);
  }

  /** After any news about a peer, in any order, an unverified message is encrypted with the key of the newest header, or
      if there was none, of the newest gossip; unless it is guaranteed, only if the newest header asked for it. */
  lemma KeyAfterNews(run: seq<Transaction>, t: Table, addr: string, d: Demand, fp: Fingerprinting)
    requires AllNews(run, Fold(addr)) && GossipTimesFit(run) && run != []
    requires TableHolds(t, fp) && Fold(addr) !in t && !d.minVerified
    ensures IsRun(run, t, fp) && IsMailOrNone(Newest(run, false)) && IsGossipOrNone(Newest(run, true))
    ensures KeyFor(After(run, t, fp), addr, d)
            == match Newest(run, false)
               case Some(x) =>
                 if x.header.value.preferEncrypt == Mutual || d.guaranteed then Some(x.header.value.key) else None
               case None =>
                 if d.guaranteed && Newest(run, true).Some? then Some(Newest(run, true).value.h.key) else None
  {
    hide Newest, GossipTimesFit, TableHolds, After, KeyFor;
    NewestIsNews(run, Fold(addr));
    Settles(run, t, Fold(addr), fp);
    hide SameText;
    RowHasAddress(After(run, t, fp), addr, fp);
    KeyForIff(After(run, t, fp), addr, d, fp);
  }
}
