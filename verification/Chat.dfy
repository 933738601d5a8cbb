/** The message side of the database and the sending of one message. */
module Chat {
  import opened Basics
  import opened Text
  import opened Words
  import opened Matching
  import opened TrieFilter
  import opened StarWords
  import opened Outbox

  datatype Message = Message(room: nat, sender: nat, kind: nat, content: Option<string>, normal: bool)

  /** `lastMsg` is 0 while a room is empty. */
  datatype Room = Room(members: seq<nat>, lastMsg: nat)

  datatype Db = Db(messages: map<nat, Message>, rows: Rows, rooms: map<nat, Room>, nextMsg: nat, nextRow: nat)

  datatype Failure = RoomNotFound | NotRoomMember | DbError

  datatype SendResult = Ok(msgId: nat, rowId: nat, sensitiveHit: bool) | Err(failure: Failure)

  /** The statement of the transaction that raises, if any. */
  datatype Fault = NoFault | AtMessage | AtOutbox | AtRoom | AtCommit

  /** The one transaction of a send: message, outbox row and last message of the room. */
  function Committed(db: Db, m: Message, now: real): Db
    requires m.room in db.rooms
  {
    Db(db.messages[db.nextMsg := m],
       db.rows[db.nextRow := NewRow(TOPIC_MESSAGE_NEW, db.nextMsg, now)],
       db.rooms[m.room := db.rooms[m.room].(lastMsg := db.nextMsg)],
       db.nextMsg + 1, db.nextRow + 1)
  }

  /** No word is left in a stored text, as far as the words allow that; an empty text is stored
      as it is. */
  lemma StoredClean(words: set<string>, text: string)
    ensures AllStarsInside(words) ==> !Hit(words, Lower(DfaOutput(words, text)))
    ensures text == "" ==> DfaOutput(words, text) == text
  {
    if AllStarsInside(words) {
      OutputsClean(words, text);
    }
  }

  class MessageService {
    var db: Db
    const filter: DFAFilter

    constructor (db: Db, filter: DFAFilter)
      ensures this.db == db && this.filter == filter
    {
      this.db := db;
      this.filter := filter;
    }

    /** `send` up to the commit: all three writes or none, and the stored text is the filtered
        one. The dispatch that follows is outside the transaction. */
    method Send(user: nat, room: nat, kind: nat, content: Option<string>, now: real, fault: Fault)
      returns (r: SendResult)
      requires filter.Valid()
      modifies this
      ensures r.Err? ==> db == old(db)
      ensures r.Err? <==>
                room !in old(db).rooms || user !in old(db).rooms[room].members || fault != NoFault
      ensures r == Err(RoomNotFound) <==> room !in old(db).rooms
      ensures r == Err(NotRoomMember) <==>
                room in old(db).rooms && user !in old(db).rooms[room].members
      // the new message, under the next id and with the filtered text
      ensures r.Ok? ==>
                r.msgId == old(db).nextMsg && r.msgId in db.messages && db.nextMsg == r.msgId + 1 &&
                db.messages == old(db).messages[r.msgId := db.messages[r.msgId]] &&
                var m := db.messages[r.msgId];
                m.room == room && m.sender == user && m.kind == kind && m.normal && (m.content.Some? <==> content.Some?)
      ensures r.Ok? && content.Some? ==>
                db.messages[r.msgId].content == Some(DfaOutput(filter.words, content.value))
      ensures r.Ok? ==> (r.sensitiveHit <==> db.messages[r.msgId].content != content)
      ensures r.Ok? && content.Some? && AllStarsInside(filter.words) ==>
                !Hit(filter.words, Lower(db.messages[r.msgId].content.value))
      // its outbox row, and the room's last message
      ensures r.Ok? ==>
                r.rowId == old(db).nextRow && db.nextRow == r.rowId + 1 &&
                db.rows == old(db).rows[r.rowId := Row("message.new", r.msgId, Pending, 0, AtOnce, now)]
      ensures r.Ok? ==>
                room in old(db).rooms &&
                db.rooms == old(db).rooms[room := Room(old(db).rooms[room].members, r.msgId)]
      // which is the step the delivery protocol begins with
      ensures r.Ok? ==> db == Committed(old(db), db.messages[r.msgId], now)
    {
      var session := db;
      if room !in session.rooms {
        return Err(RoomNotFound);
      }
      if user !in session.rooms[room].members {
        return Err(NotRoomMember);
      }
      if content.Some? {
        StoredClean(filter.words, content.value);
      }
      var text, hit := content, false;
      if content.Some? && content.value != "" {
        var filtered := filter.Filter(content.value);
        hit := filtered != content.value;
        text := Some(filtered);
      }
      if fault == AtMessage {
        return Err(DbError);
      }
      var msgId := session.nextMsg;
      session := session.(messages := session.messages[msgId := Message(room, user, kind, text, true)],
                          nextMsg := msgId + 1);
      if fault == AtOutbox {
        return Err(DbError);
      }
      var rowId := session.nextRow;
      session := session.(rows := session.rows[rowId := NewRow(TOPIC_MESSAGE_NEW, msgId, now)],
                          nextRow := rowId + 1);
      if fault == AtRoom {
        return Err(DbError);
      }
      session := session.(rooms := session.rooms[room := session.rooms[room].(lastMsg := msgId)]);
      if fault == AtCommit {
        return Err(DbError);
      }
      db := session;
      r := Ok(msgId, rowId, hit);
    }
  }
}
