/** The chat panel's message-composition logic: mention detection while
    typing, mention insertion, the mention candidate filter, composing an
    outgoing message, and the de-duplicated message list. */
module Chat {
  import opened Common
  import Strings

  /** The client's copy of the room, as far as the chat panel uses it. */
  datatype ClientRoom = ClientRoom(id: RoomId, users: seq<User>, messages: seq<Message>)

  // ---------------------------------------------------------------------
  // Mention detection while typing

  /** What the text after the last `@` of the input says about the mention
      pop-up: there is no `@`, the mention is still being typed (`query`),
      or it has been closed by a space. */
  datatype MentionParse = NoAt | Open(query: string) | Closed

  /** The analysis `handleInputChange` makes of the new input value. */
  function ParseMention(value: string): (r: MentionParse)
    ensures r.NoAt? <==> '@' !in value
    ensures r.Open? ==> exists before :: value == before + ['@'] + r.query && '@' !in r.query && ' ' !in r.query
    ensures r.Closed? ==> exists before, after :: value == before + ['@'] + after && '@' !in after && ' ' in after
  {
    var at := Strings.LastIndexOf(value, '@');
    if at == -1 then NoAt
    else
      Strings.LastIndexOfSplit(value, '@');
      var after := value[at + 1..];
      if Strings.IndexOf(after, ' ') == -1 then Open(after) else Closed
  }

  /** The converse: the text after the last `@` decides the outcome, and an
      open mention's query is exactly that text. */
  lemma ParseMentionOf(before: string, after: string)
    requires '@' !in after
    ensures ParseMention(before + ['@'] + after) == if ' ' in after then Closed else Open(after)
  {
    var value := before + ['@'] + after;
    Strings.LastIndexOfAt(before, '@', after);
    assert value[|before| + 1..] == after;
  }

  // ---------------------------------------------------------------------
  // Mention insertion

  /** The input after `handleMention` picks `username`: the word being typed
      after the last `@` is replaced by `@username` and a space. */
  function InsertMention(prev: string, username: string): (r: string)
    ensures '@' !in prev ==> r == prev
  {
    var at := Strings.LastIndexOf(prev, '@');
    if at == -1 then prev
    else
      var before := prev[..at];
      var after := Strings.Join(Strings.Split(prev[at..], ' ')[1..], ' ');
      before + ['@'] + username + [' '] + after
  }

  /** The result of a mention insertion: the text before the last `@`, then
      `@username` and a space, then whatever followed the first space after
      that `@` (nothing when there was none). */
  lemma InsertMentionResult(before: string, after: string, username: string)
    requires '@' !in after
    ensures InsertMention(before + ['@'] + after, username) ==
      before + ['@'] + username + [' '] + Strings.AfterFirst(after, ' ')
  {
    var prev := before + ['@'] + after;
    Strings.LastIndexOfAt(before, '@', after);
    assert prev[..|before|] == before;
    assert prev[|before|..] == ['@'] + after;
    Strings.SplitTail(['@'] + after, ' ');
    Strings.AfterFirstCons('@', after, ' ');
  }

  /** Picking a mention closes it: the new input has no open mention. */
  lemma InsertMentionCloses(before: string, after: string, username: string)
    requires '@' !in after && '@' !in username
    ensures !ParseMention(InsertMention(before + ['@'] + after, username)).Open?
  {
    InsertMentionResult(before, after, username);
    ClosedMention(before, username, Strings.AfterFirst(after, ' '), after);
  }

  /** `before`, `@username`, a space and the words after the first space of
      an `@`-free text parse as a closed mention. */
  lemma ClosedMention(before: string, username: string, rest: string, after: string)
    requires '@' !in after && '@' !in username && rest == Strings.AfterFirst(after, ' ')
    ensures ParseMention(before + ['@'] + username + [' '] + rest) == Closed
  {
    assert '@' !in rest by {
      if ' ' in after {
        var w :| after == w + [' '] + rest && ' ' !in w;
        assert forall j :: 0 <= j < |rest| ==> rest[j] == after[|w| + 1 + j];
      }
    }
    var tail := username + [' '] + rest;
    assert before + ['@'] + username + [' '] + rest == before + ['@'] + tail;
    assert '@' !in tail;
    assert ' ' in tail by { assert tail[|username|] == ' '; }
    ParseMentionOf(before, tail);
  }

  // ---------------------------------------------------------------------
  // Mention candidates

  /** The case-insensitive test of `filteredUsers`; an empty query admits
      everyone. */
  predicate Matches(u: User, query: string) {
    query == [] || Strings.Contains(Strings.ToLower(u.username), Strings.ToLower(query))
  }

  /** `users.filter(...)` with that test. */
  function FilteredUsers(users: seq<User>, query: string): (r: seq<User>)
    ensures query == [] ==> r == users
    ensures forall u :: u in r <==> u in users && Matches(u, query)
    ensures |r| <= |users|
  {
    if users == [] then []
    else
      var rest := FilteredUsers(users[1..], query);
      assert users == [users[0]] + users[1..];
      (if Matches(users[0], query) then [users[0]] else []) + rest
  }

  /** The filter keeps the original order: it works piece by piece. */
  lemma {:induction false} FilteredUsersAppend(xs: seq<User>, ys: seq<User>, query: string)
    ensures FilteredUsers(xs + ys, query) == FilteredUsers(xs, query) + FilteredUsers(ys, query)
  {
    if xs == [] {
      assert xs + ys == ys;
    } else {
      assert (xs + ys)[0] == xs[0] && (xs + ys)[1..] == xs[1..] + ys;
      FilteredUsersAppend(xs[1..], ys, query);
    }
  }

  /** ... and on one user it is the test itself. */
  lemma FilteredUsersOne(u: User, query: string)
    ensures FilteredUsers([u], query) == if Matches(u, query) then [u] else []
  {
    assert [u][1..] == [];
  }

  // ---------------------------------------------------------------------
  // Composing a message

  /** The message `handleSendMessage` builds: a selected mention makes it
      private to that user and has its leading `@username` removed. */
  function Compose(id: string, sender: User, input: string, mentioned: Option<User>): (m: Message)
    ensures m.id == id && m.sender == sender && m.recipient == mentioned
    ensures m.isPrivate <==> mentioned.Some?
    ensures mentioned.None? ==> m.content == input
    ensures mentioned.Some? ==> m.content == Strings.CleanMention(input, mentioned.value.username)
  {
    var content := if mentioned.Some? then Strings.CleanMention(input, mentioned.value.username) else input;
    Message(id, sender, content, mentioned, mentioned.Some?)
  }

  /** The sender keeps its own cleaned copy, while the server cleans that
      copy once more before storing and delivering it: text that starts with
      the mention twice is shown to the sender with one `@name` and reaches
      the recipient and the room history with none. */
  lemma DoubleMention(name: string, rest: string)
    requires name != [] && Strings.IsWordChar(name[|name| - 1])
    requires rest != [] && !Strings.IsSpace(rest[0]) && !Strings.IsSpace(rest[|rest| - 1])
    ensures var sent := ['@'] + name + [' '] + rest;
      && Strings.CleanMention(['@'] + name + [' '] + sent, name) == sent
      && Strings.CleanMention(sent, name) == rest
  {
    var sent := ['@'] + name + [' '] + rest;
    assert sent[|sent| - 1] == rest[|rest| - 1];
    Strings.CleanMentionSpaced(name, sent);
    Strings.CleanMentionSpaced(name, rest);
  }

  /** The message a join or leave notification appends. */
  function SystemNotice(id: string, text: string): (m: Message)
    ensures m.sender.id == "system" && m.content == text && !m.isPrivate && m.recipient.None?
  {
    Message(id, User("system", "System"), text, None, false)
  }

  // ---------------------------------------------------------------------
  // Receiving messages

  /** The ids already handled and the message list, the state one incoming
      message touches. */
  datatype Inbox = Inbox(handled: set<string>, messages: seq<Message>)

  /** One incoming message: ignored if its id was handled, otherwise its id
      is recorded and it is appended. */
  function Receive(b: Inbox, m: Message): (r: Inbox)
    ensures m.id in r.handled && b.handled <= r.handled
    ensures m.id in b.handled ==> r == b
    ensures m.id !in b.handled ==> r.messages == b.messages + [m]
  {
    if m.id in b.handled then b else Inbox(b.handled + {m.id}, b.messages + [m])
  }

  /** Receiving the same message again changes nothing. */
  lemma ReceiveIdempotent(b: Inbox, m: Message)
    ensures Receive(Receive(b, m), m) == Receive(b, m)
  {
  }

  /** A stream of incoming messages, handled in order. */
  function ReceiveAll(b: Inbox, ms: seq<Message>): Inbox
    decreases |ms|
  {
    if ms == [] then b else ReceiveAll(Receive(b, ms[0]), ms[1..])
  }

  function Ids(ms: seq<Message>): set<string> {
    set i | 0 <= i < |ms| :: ms[i].id
  }

  /** The messages of `ms` whose id is neither in `seen` nor carried by an
      earlier message of `ms`, in order. */
  function Fresh(seen: set<string>, ms: seq<Message>): seq<Message>
    decreases |ms|
  {
    if ms == [] then []
    else if ms[0].id in seen then Fresh(seen, ms[1..])
    else [ms[0]] + Fresh(seen + {ms[0].id}, ms[1..])
  }

  lemma IdsCons(ms: seq<Message>)
    requires ms != []
    ensures Ids(ms) == {ms[0].id} + Ids(ms[1..])
  {
    forall x | x in Ids(ms) ensures x in {ms[0].id} + Ids(ms[1..]) {
      var i :| 0 <= i < |ms| && ms[i].id == x;
      if i > 0 { assert ms[1..][i - 1] == ms[i]; }
    }
    forall x | x in Ids(ms[1..]) ensures x in Ids(ms) {
      var i :| 0 <= i < |ms| - 1 && ms[1..][i].id == x;
      assert ms[i + 1] == ms[1..][i];
    }
  }

  /** After a stream of messages every id of the stream is handled, and
      exactly the fresh ones were appended, each once. */
  lemma {:induction false} ReceiveAllFresh(b: Inbox, ms: seq<Message>)
    ensures ReceiveAll(b, ms) == Inbox(b.handled + Ids(ms), b.messages + Fresh(b.handled, ms))
    decreases |ms|
  {
    if ms == [] {
      assert Ids(ms) == {};
      assert b.handled + {} == b.handled && b.messages + [] == b.messages;
    } else {
      var m := ms[0];
      var b' := Receive(b, m);
      ReceiveAllFresh(b', ms[1..]);
      IdsCons(ms);
      if m.id in b.handled {
        assert b.handled + Ids(ms) == b.handled + Ids(ms[1..]);
      } else {
        assert b'.handled + Ids(ms[1..]) == b.handled + Ids(ms);
        assert b'.messages + Fresh(b'.handled, ms[1..]) == b.messages + ([m] + Fresh(b'.handled, ms[1..]));
      }
    }
  }

  /** No fresh message repeats an id, and none carries an id already seen. */
  lemma {:induction false} FreshDistinct(seen: set<string>, ms: seq<Message>)
    ensures forall i :: 0 <= i < |Fresh(seen, ms)| ==> Fresh(seen, ms)[i].id !in seen
    ensures forall i, j :: 0 <= i < j < |Fresh(seen, ms)| ==> Fresh(seen, ms)[i].id != Fresh(seen, ms)[j].id
    decreases |ms|
  {
    if ms != [] {
      FreshDistinct(seen, ms[1..]);
      FreshDistinct(seen + {ms[0].id}, ms[1..]);
    }
  }

  // ---------------------------------------------------------------------
  // The chat panel

  /** What `handleSendMessage` hands to the socket client. */
  datatype Outgoing = Nothing | PublicSend(roomId: RoomId, message: Message) | PrivateSend(roomId: RoomId, message: Message)

  class ChatView {
    /** The signed-in user and the room, from the user context. */
    var user: Option<User>
    var room: Option<ClientRoom>
    /** `inputMessage`, `mentionedUser`, `showMentions`, `searchQuery`. */
    var input: string
    var mentioned: Option<User>
    var showMentions: bool
    var searchQuery: string
    /** `messageHandledRef`: ids of messages already shown. */
    var handled: set<string>

    constructor (user: Option<User>, room: Option<ClientRoom>)
      ensures this.user == user && this.room == room
      ensures input == "" && mentioned.None? && !showMentions && searchQuery == "" && handled == {}
    {
      this.user := user;
      this.room := room;
      input := "";
      mentioned := None;
      showMentions := false;
      searchQuery := "";
      handled := {};
    }

    /** `handleNewMessage` and `handlePrivateMessage`, which are the same:
        the message list changes as `Receive` says, and the id is recorded
        even when there is no room. */
    method ReceiveMessage(m: Message)
      modifies this
      ensures handled == old(handled) + {m.id}
      ensures room.Some? <==> old(room).Some?
      ensures room.Some? ==>
        && room.value.id == old(room).value.id && room.value.users == old(room).value.users
        && Inbox(handled, room.value.messages) == Receive(Inbox(old(handled), old(room).value.messages), m)
      ensures user == old(user) && input == old(input) && mentioned == old(mentioned)
      ensures showMentions == old(showMentions) && searchQuery == old(searchQuery)
    {
      if m.id in handled {
        return;
      }
      handled := handled + {m.id};
      if room.Some? {
        room := Some(room.value.(messages := room.value.messages + [m]));
      }
    }

    /** `handleUserJoinedRoom` and `handleUserLeftRoom`: the member list
        becomes the server's and one system message with the notice text is
        appended. The id comes from the caller (a fresh uuid). */
    method MembershipNotice(text: string, users: seq<User>, noticeId: string)
      modifies this
      ensures old(room).None? ==> room.None?
      ensures old(room).Some? ==>
        room == Some(old(room).value.(users := users, messages := old(room).value.messages + [SystemNotice(noticeId, text)]))
      ensures user == old(user) && input == old(input) && mentioned == old(mentioned) && handled == old(handled)
      ensures showMentions == old(showMentions) && searchQuery == old(searchQuery)
    {
      if room.Some? {
        room := Some(room.value.(users := users, messages := room.value.messages + [SystemNotice(noticeId, text)]));
      }
    }

    /** `handleInputChange`: the pop-up is shown with the text after the
        last `@` while that text has no space; with no `@` the query is
        cleared; once closed the old query is kept. */
    method InputChange(value: string)
      modifies this
      ensures input == value
      ensures showMentions <==> ParseMention(value).Open?
      ensures searchQuery == match ParseMention(value)
                             case NoAt => ""
                             case Open(q) => q
                             case Closed => old(searchQuery)
      ensures user == old(user) && room == old(room) && mentioned == old(mentioned) && handled == old(handled)
    {
      input := value;
      match ParseMention(value)
      case NoAt =>
        showMentions := false;
        searchQuery := "";
      case Open(q) =>
        showMentions := true;
        searchQuery := q;
      case Closed =>
        showMentions := false;
    }

    /** `handleMention`. */
    method Mention(selected: User)
      modifies this
      ensures mentioned == Some(selected) && !showMentions
      ensures input == InsertMention(old(input), selected.username)
      ensures user == old(user) && room == old(room) && handled == old(handled) && searchQuery == old(searchQuery)
    {
      mentioned := Some(selected);
      input := InsertMention(input, selected.username);
      showMentions := false;
    }

    /** `filteredUsers`: the mention candidates; none without a room. */
    function Candidates(): (r: seq<User>)
      reads this
      ensures room.None? ==> r == []
      ensures room.Some? ==> forall u :: u in r <==> u in room.value.users && Matches(u, searchQuery)
    {
      if room.None? then [] else FilteredUsers(room.value.users, searchQuery)
    }

    /** `handleSendMessage`, with the fresh message id as a parameter. Blank
        input, or no user or room, sends nothing and changes nothing. A
        public message is recorded as handled and shown at once; a private
        one waits for the server's acknowledgement (`PrivateAck`). */
    method SendMessage(messageId: string) returns (out: Outgoing)
      modifies this
      ensures Strings.AllSpace(old(input)) || old(user).None? || old(room).None? ==>
        && out == Nothing
        && input == old(input) && mentioned == old(mentioned) && room == old(room) && handled == old(handled)
      ensures !(Strings.AllSpace(old(input)) || old(user).None? || old(room).None?) ==>
        var m := Compose(messageId, old(user).value, old(input), old(mentioned));
        && input == "" && mentioned.None?
        && (old(mentioned).Some? ==> out == PrivateSend(old(room).value.id, m) && room == old(room) && handled == old(handled))
        && (old(mentioned).None? ==>
              && out == PublicSend(old(room).value.id, m)
              && handled == old(handled) + {messageId}
              && room == Some(old(room).value.(messages := old(room).value.messages + [m])))
      ensures user == old(user) && showMentions == old(showMentions) && searchQuery == old(searchQuery)
    {
      if Strings.Trim(input) == [] || user.None? || room.None? {
        return Nothing;
      }
      out := Send(messageId);
    }

    /** The sending part of `handleSendMessage`, once the input is known not
        to be blank and both the user and the room are present. */
    method Send(messageId: string) returns (out: Outgoing)
      requires user.Some? && room.Some?
      modifies this
      ensures var m := Compose(messageId, old(user).value, old(input), old(mentioned));
        && input == "" && mentioned.None?
        && (old(mentioned).Some? ==> out == PrivateSend(old(room).value.id, m) && room == old(room) && handled == old(handled))
        && (old(mentioned).None? ==>
              && out == PublicSend(old(room).value.id, m)
              && handled == old(handled) + {messageId}
              && room == Some(old(room).value.(messages := old(room).value.messages + [m])))
      ensures user == old(user) && showMentions == old(showMentions) && searchQuery == old(searchQuery)
    {
      var m := Compose(messageId, user.value, input, mentioned);
      if mentioned.Some? {
        out := PrivateSend(room.value.id, m);
      } else {
        handled := handled + {messageId};
        out := PublicSend(room.value.id, m);
        room := Some(room.value.(messages := room.value.messages + [m]));
      }
      input := "";
      mentioned := None;
    }

    /** The acknowledgement callback of a private send: on success the
        message (with its cleaned content) is recorded and shown. */
    method PrivateAck(sent: Outgoing, success: bool)
      requires sent.PrivateSend?
      modifies this
      ensures !success ==> handled == old(handled) && room == old(room)
      ensures success ==> handled == old(handled) + {sent.message.id}
      ensures success && old(room).Some? ==> room == Some(old(room).value.(messages := old(room).value.messages + [sent.message]))
      ensures success && old(room).None? ==> room.None?
      ensures user == old(user) && input == old(input) && mentioned == old(mentioned)
      ensures showMentions == old(showMentions) && searchQuery == old(searchQuery)
    {
      var m := sent.message;
      if success {
        handled := handled + {m.id};
        if room.Some? {
          room := Some(room.value.(messages := room.value.messages + [m]));
        }
      }
    }
  }
}
