/** Read receipts: who has read an own message, and when it counts as read. */
module Receipts {
  import opened Options

  datatype MsgState = OutPending | OutDelivered | OutMdnRcvd | Other(code: nat)

  /** The messages in the order of their ids. */
  datatype Msg = Msg(id: nat, mid: string, fromSelf: bool, chat: nat, state: MsgState)

  datatype Chat = Single | Group(members: nat)

  /** A row of the table of receipts. */
  datatype Mdn = Mdn(msg: nat, contact: nat, sent: int)

  datatype Db = Db(msgs: seq<Msg>, mdns: seq<Mdn>, chats: map<nat, Chat>)

  const LAST_SPECIAL_CONTACT := 9

  // ----- What the queries answer -----------------------------------------------------------------

  /** The first own message with the Message-ID. */
  function FindOwn(msgs: seq<Msg>, mid: string): (r: Option<nat>)
    ensures r.Some? ==> r.value < |msgs| && msgs[r.value].mid == mid && msgs[r.value].fromSelf
    ensures forall i | 0 <= i < (if r.Some? then r.value else |msgs|) :: msgs[i].mid != mid || !msgs[i].fromSelf
  {
    if msgs == [] then None
    else if msgs[0].mid == mid && msgs[0].fromSelf then Some(0)
    else match FindOwn(msgs[1..], mid) case None => None case Some(i) => Some(i + 1)
  }

  predicate HasRow(mdns: seq<Mdn>, msg: nat, contact: nat) {
    exists i | 0 <= i < |mdns| :: mdns[i].msg == msg && mdns[i].contact == contact
  }

  function CountRows(mdns: seq<Mdn>, msg: nat): nat {
    if mdns == [] then 0
    else CountRows(mdns[..|mdns| - 1], msg) + if mdns[|mdns| - 1].msg == msg then 1 else 0
  }

  /** The members of a chat, the account itself included; a chat that is gone has none. */
  function ContactCount(chats: map<nat, Chat>, chat: nat): nat {
    if chat in chats && chats[chat].Group? then chats[chat].members else 0
  }

  function Quorum(chats: map<nat, Chat>, chat: nat): nat {
    (ContactCount(chats, chat) + 1) / 2
  }

  // ----- One receipt -----------------------------------------------------------------------------

  predicate IsOpen(state: MsgState) {
    state == OutPending || state == OutDelivered
  }

  function WithRow(mdns: seq<Mdn>, m: Mdn): seq<Mdn> {
    if HasRow(mdns, m.msg, m.contact) then mdns else mdns + [m]
  }

  function Received(db: Db, sender: nat, mid: string, sent: int): (Db, bool) {
    var found := FindOwn(db.msgs, mid);
    if sender <= LAST_SPECIAL_CONTACT || found == None || !IsOpen(db.msgs[found.value].state) then (db, false)
    else
      var msg := db.msgs[found.value];
      var mdns := WithRow(db.mdns, Mdn(msg.id, sender, sent));
      if (msg.chat in db.chats && db.chats[msg.chat].Single?) || CountRows(mdns, msg.id) >= Quorum(db.chats, msg.chat) then
        (db.(msgs := db.msgs[found.value := msg.(state := OutMdnRcvd)], mdns := mdns), true)
      else (db.(mdns := mdns), false)
  }

  class Store {
    var msgs: seq<Msg>
    var mdns: seq<Mdn>
    var chats: map<nat, Chat>

    ghost function Value(): Db
      reads this
    {
      Db(msgs, mdns, chats)
    }

    method MdnFromExt(sender: nat, mid: string, sent: int) returns (readByAll: bool)
      modifies this`msgs, this`mdns
      ensures (Value(), readByAll) == Received(old(Value()), sender, mid, sent)
    {
      readByAll := false;
      if sender <= LAST_SPECIAL_CONTACT {
        return;
      }
      var found := FindOwn(msgs, mid);
      if found == None {
        return;
      }
      var msg := msgs[found.value];
      if msg.state != OutPending && msg.state != OutDelivered {
        return;
      }
      if !HasRow(mdns, msg.id, sender) {
        mdns := mdns + [Mdn(msg.id, sender, sent)];
      }
      if msg.chat in chats && chats[msg.chat].Single? {
        msgs := msgs[found.value := msg.(state := OutMdnRcvd)];
        return true;
      }
      var have := CountRows(mdns, msg.id);
      var wanted := (ContactCount(chats, msg.chat) + 1) / 2;
      if have < wanted {
        return;
      }
      msgs := msgs[found.value := msg.(state := OutMdnRcvd)];
      readByAll := true;
    }
  }

  // ----- All receipts ----------------------------------------------------------------------------

  datatype Receipt = Receipt(sender: nat, mid: string, sent: int)

  function AllReceived(db: Db, receipts: seq<Receipt>): Db {
    if receipts == [] then db
    else
      var n := |receipts| - 1;
      var last := receipts[n];
      Received(AllReceived(db, receipts[..n]), last.sender, last.mid, last.sent).0
  }

  predicate NoDuplicates(mdns: seq<Mdn>) {
    forall i, j | 0 <= i < j < |mdns| :: mdns[i].msg != mdns[j].msg || mdns[i].contact != mdns[j].contact
  }

  /** There is at most one row for a message and a contact, whatever receipts come. */
  lemma {:induction false} OneRowPerReader(db: Db, receipts: seq<Receipt>)
    requires NoDuplicates(db.mdns)
    ensures NoDuplicates(AllReceived(db, receipts).mdns)
  {
    if receipts != [] {
      OneRowPerReader(db, receipts[..|receipts| - 1]);
    }
  }

  function Contacts(mdns: seq<Mdn>, msg: nat): set<nat> {
    set m | m in mdns && m.msg == msg :: m.contact
  }

  /** Without duplicates the rows of a message are its readers. */
  lemma {:induction false} RowsAreReaders(mdns: seq<Mdn>, msg: nat)
    requires NoDuplicates(mdns)
    ensures CountRows(mdns, msg) == |Contacts(mdns, msg)|
  {
    if mdns == [] {
      assert Contacts(mdns, msg) == {};
    } else {
      var before, last := mdns[..|mdns| - 1], mdns[|mdns| - 1];
      RowsAreReaders(before, msg);
      assert mdns == before + [last];
      if last.msg == msg {
        assert Contacts(mdns, msg) == Contacts(before, msg) + {last.contact};
        assert last.contact !in Contacts(before, msg);
      } else {
        assert Contacts(mdns, msg) == Contacts(before, msg);
      }
    }
  }

  /** Who sent a receipt for the message. */
  function Readers(receipts: seq<Receipt>, mid: string): set<nat> {
    set r | r in receipts && r.mid == mid && r.sender > LAST_SPECIAL_CONTACT :: r.sender
  }

  /** Receipts came from `readers`, after those of `before`: in a normal chat any receipt is enough, in a group the
      receipts of half of its members are. */
  predicate ReadByAll(chats: map<nat, Chat>, chat: nat, before: set<nat>, readers: set<nat>) {
    readers != {} && ((chat in chats && chats[chat].Single?) || |before + readers| >= Quorum(chats, chat))
  }

  predicate IsDb(db: Db) {
    NoDuplicates(db.mdns) && forall i, j | 0 <= i < j < |db.msgs| :: db.msgs[i].id != db.msgs[j].id
  }

  /** Receipts change nothing about the messages but their states. */
  predicate SameButStates(a: seq<Msg>, b: seq<Msg>) {
    |a| == |b| && forall k | 0 <= k < |a| :: a[k].(state := OutPending) == b[k].(state := OutPending)
  }

  lemma {:induction false} SameFound(a: seq<Msg>, b: seq<Msg>, mid: string)
    requires SameButStates(a, b)
    ensures FindOwn(a, mid) == FindOwn(b, mid)
  {
    if a != [] {
      assert a[0].(state := OutPending) == b[0].(state := OutPending);
      SameFound(a[1..], b[1..], mid);
    }
  }

  lemma ReadersAfter(receipts: seq<Receipt>, last: Receipt, mid: string)
    ensures Readers(receipts + [last], mid)
            == Readers(receipts, mid) + if last.mid == mid && last.sender > LAST_SPECIAL_CONTACT then {last.sender} else {}
  {
    var all := receipts + [last];
    assert forall r | r in receipts :: r in all;
    assert last in all;
  }

  lemma {:induction false} MoreIsMore(a: set<nat>, b: set<nat>)
    requires a <= b
    ensures |a| <= |b|
  {
    if a != {} {
      var x :| x in a;
      MoreIsMore(a - {x}, b - {x});
    }
  }

  lemma ContactsAfter(mdns: seq<Mdn>, m: Mdn, msg: nat)
    ensures Contacts(WithRow(mdns, m), msg) == Contacts(mdns, msg) + if m.msg == msg then {m.contact} else {}
  {
    if HasRow(mdns, m.msg, m.contact) {
      var i :| 0 <= i < |mdns| && mdns[i].msg == m.msg && mdns[i].contact == m.contact;
      assert mdns[i] in mdns;
    } else {
      var all := mdns + [m];
      assert forall x | x in mdns :: x in all;
      assert m in all;
    }
  }

  /** The state that receipts of `readers` give to the message `i`. */
  function StateAfter(init: Db, i: nat, readers: set<nat>): MsgState
    requires i < |init.msgs|
  {
    var msg := init.msgs[i];
    if IsOpen(msg.state) && ReadByAll(init.chats, msg.chat, Contacts(init.mdns, msg.id), readers) then OutMdnRcvd
    else msg.state
  }

  /** What is known of the message `i` after receipts that came from `readers`. */
  predicate Tracks(db: Db, init: Db, i: nat, readers: set<nat>)
    requires i < |init.msgs|
  {
    && NoDuplicates(db.mdns) && db.chats == init.chats && SameButStates(db.msgs, init.msgs)
    && db.msgs[i].state == StateAfter(init, i, readers)
    && (IsOpen(db.msgs[i].state) ==>
          Contacts(db.mdns, init.msgs[i].id) == Contacts(init.mdns, init.msgs[i].id) + readers)
  }

  lemma RowAdded(mdns: seq<Mdn>, m: Mdn)
    requires NoDuplicates(mdns)
    ensures var after := WithRow(mdns, m);
            && NoDuplicates(after) && Contacts(after, m.msg) == Contacts(mdns, m.msg) + {m.contact}
            && CountRows(after, m.msg) == |Contacts(after, m.msg)|
  {
    ContactsAfter(mdns, m, m.msg);
    RowsAreReaders(WithRow(mdns, m), m.msg);
  }

  lemma ReceiptTracked(db: Db, init: Db, i: nat, readers: set<nat>, r: Receipt)
    requires IsDb(init) && FindOwn(init.msgs, r.mid) == Some(i)
    requires Tracks(db, init, i, readers)
    ensures Tracks(Received(db, r.sender, r.mid, r.sent).0, init, i,
                   readers + if r.sender > LAST_SPECIAL_CONTACT then {r.sender} else {})
  {
    hide NoDuplicates, Contacts, WithRow, CountRows, Quorum, FindOwn, IsDb;
    SameFound(db.msgs, init.msgs, r.mid);
    assert db.msgs[i].(state := OutPending) == init.msgs[i].(state := OutPending);
    if r.sender > LAST_SPECIAL_CONTACT {
      var known := Contacts(init.mdns, init.msgs[i].id);
      var after := readers + {r.sender};
      MoreIsMore(known + readers, known + after);
      assert known + after == known + readers + {r.sender};
      if ReadByAll(init.chats, init.msgs[i].chat, known, readers) {
        assert ReadByAll(init.chats, init.msgs[i].chat, known, after);
      } else {
        RowAdded(db.mdns, Mdn(db.msgs[i].id, r.sender, r.sent));
      }
    } else {
      assert readers + {} == readers;
    }
  }

  lemma OtherReceiptTracked(db: Db, init: Db, i: nat, readers: set<nat>, mid: string, r: Receipt)
    requires IsDb(init) && FindOwn(init.msgs, mid) == Some(i) && r.mid != mid
    requires Tracks(db, init, i, readers)
    ensures Tracks(Received(db, r.sender, r.mid, r.sent).0, init, i, readers)
  {
    var j := FindOwn(db.msgs, r.mid);
    if j.Some? {
      OtherMessage(db.msgs, init, i, j.value);
      StateSet(db.msgs, init.msgs, j.value, OutMdnRcvd);
    }
    hide NoDuplicates, Contacts, WithRow, CountRows, Quorum, FindOwn, IsDb, StateAfter, SameButStates;
    if j.Some? {
      var row := Mdn(db.msgs[j.value].id, r.sender, r.sent);
      ContactsAfter(db.mdns, row, init.msgs[i].id);
      RowAdded(db.mdns, row);
    }
  }

  lemma StateSet(msgs: seq<Msg>, base: seq<Msg>, j: nat, state: MsgState)
    requires SameButStates(msgs, base) && j < |msgs|
    ensures SameButStates(msgs[j := msgs[j].(state := state)], base)
  {
  }

  /** Messages of different Message-IDs are two messages, with two ids. */
  lemma OtherMessage(msgs: seq<Msg>, init: Db, i: nat, j: nat)
    requires IsDb(init) && SameButStates(msgs, init.msgs) && i < |msgs| && j < |msgs|
    requires init.msgs[i].mid != msgs[j].mid
    ensures i != j && msgs[j].id != init.msgs[i].id
  {
    assert msgs[j].(state := OutPending) == init.msgs[j].(state := OutPending);
  }

  lemma NothingTracked(db: Db, i: nat)
    requires IsDb(db) && i < |db.msgs|
    ensures Tracks(AllReceived(db, []), db, i, {})
  {
  }

  lemma {:induction false} AllTracked(db: Db, receipts: seq<Receipt>, mid: string)
    requires IsDb(db) && FindOwn(db.msgs, mid).Some?
    ensures Tracks(AllReceived(db, receipts), db, FindOwn(db.msgs, mid).value, Readers(receipts, mid))
  {
    hide Tracks, Received;
    var i := FindOwn(db.msgs, mid).value;
    if receipts == [] {
      assert Readers(receipts, mid) == {};
      NothingTracked(db, i);
    } else {
      var before, last := receipts[..|receipts| - 1], receipts[|receipts| - 1];
      AllTracked(db, before, mid);
      assert receipts == before + [last];
      ReadersAfter(before, last, mid);
      assert AllReceived(db, receipts) == Received(AllReceived(db, before), last.sender, last.mid, last.sent).0;
      if last.mid == mid {
        ReceiptTracked(AllReceived(db, before), db, i, Readers(before, mid), last);
      } else {
        assert Readers(receipts, mid) == Readers(before, mid);
        OtherReceiptTracked(AllReceived(db, before), db, i, Readers(before, mid), mid, last);
      }
    }
  }

  /** The contacts with a row for the message, and the senders of receipts for it that are no special contacts. */
  function ReadersOf(mdns: seq<Mdn>, id: nat, receipts: seq<Receipt>, mid: string): set<nat> {
    (set m | m in mdns && m.msg == id :: m.contact) + (set r | r in receipts && r.mid == mid && r.sender > 9 :: r.sender)
  }

  /** The message found for a Message-ID is the first own one with it. */
  lemma FoundIff(msgs: seq<Msg>, mid: string, i: nat)
    ensures FindOwn(msgs, mid) == Some(i)
            <==> i < |msgs| && msgs[i].mid == mid && msgs[i].fromSelf
                 && forall j | 0 <= j < i :: msgs[j].mid != mid || !msgs[j].fromSelf
  {
  }

  /** A receipt adds a row, with its time, exactly if it is from an ordinary contact, for a message that is found and pending
      or delivered, and the first of this contact for it. */
  lemma RowAddedIff(db: Db, sender: nat, mid: string, sent: int)
    ensures var found, after := FindOwn(db.msgs, mid), Received(db, sender, mid, sent).0;
            after.mdns
            == if sender > 9 && found.Some?
                  && (db.msgs[found.value].state == OutPending || db.msgs[found.value].state == OutDelivered)
                  && (forall m | m in db.mdns :: m.msg != db.msgs[found.value].id || m.contact != sender)
               then db.mdns + [Mdn(db.msgs[found.value].id, sender, sent)] else db.mdns
  {
  }

  /** A receipt is reported as the one that makes the message read exactly if it changes the state of the message. */
  lemma ReportedIff(db: Db, sender: nat, mid: string, sent: int)
    ensures var (after, read) := Received(db, sender, mid, sent);
            && (read <==> after.msgs != db.msgs) && after.chats == db.chats
            && (read ==> FindOwn(db.msgs, mid).Some?
                         && after.msgs == db.msgs[FindOwn(db.msgs, mid).value
                                                  := db.msgs[FindOwn(db.msgs, mid).value].(state := OutMdnRcvd)])
  {
    var after := Received(db, sender, mid, sent).0;
    if FindOwn(db.msgs, mid).Some? {
      assert after.msgs != db.msgs ==> after.msgs[FindOwn(db.msgs, mid).value].state == OutMdnRcvd;
    }
  }

  /** An own message that is pending or delivered becomes read exactly when there are receipts for it and enough
      different contacts sent one, now or before: one in a normal chat, half of the members in a group, rounded up.
      Otherwise its state stays as it was. */
  lemma ReadIff(db: Db, receipts: seq<Receipt>, mid: string)
    requires IsDb(db) && FindOwn(db.msgs, mid).Some?
    ensures var i := FindOwn(db.msgs, mid).value;
            var msg, after := db.msgs[i], AllReceived(db, receipts);
            var readers := ReadersOf(db.mdns, msg.id, receipts, mid);
            && |after.msgs| == |db.msgs|
            && after.msgs[i].state
               == if (msg.state == OutPending || msg.state == OutDelivered)
                     && (exists r | r in receipts :: r.mid == mid && r.sender > 9)
                     && (if msg.chat in db.chats
                         then db.chats[msg.chat].Single? || 2 * |readers| >= db.chats[msg.chat].members
                         else true)
                  then OutMdnRcvd else msg.state
  {
    AllTracked(db, receipts, mid);
    var msg := db.msgs[FindOwn(db.msgs, mid).value];
    assert Contacts(db.mdns, msg.id) + Readers(receipts, mid) == ReadersOf(db.mdns, msg.id, receipts, mid);
    if r :| r in receipts && r.mid == mid && r.sender > 9 {
      assert r.sender in Readers(receipts, mid);
    }
  }

  /** Neither the order of receipts nor repeated ones matter for the state of a message. */
  lemma OrderDoesNotMatter(db: Db, receipts: seq<Receipt>, others: seq<Receipt>, mid: string)
    requires IsDb(db) && FindOwn(db.msgs, mid).Some?
    requires Readers(receipts, mid) == Readers(others, mid)
    ensures var i := FindOwn(db.msgs, mid).value;
            |AllReceived(db, receipts).msgs| == |AllReceived(db, others).msgs| == |db.msgs|
            && AllReceived(db, receipts).msgs[i] == AllReceived(db, others).msgs[i]
  {
    AllTracked(db, receipts, mid);
    AllTracked(db, others, mid);
    var i := FindOwn(db.msgs, mid).value;
    var a, b := AllReceived(db, receipts).msgs[i], AllReceived(db, others).msgs[i];
    assert a.(state := OutPending) == b.(state := OutPending);
    assert a == a.(state := OutPending).(state := a.state);
  }
}
