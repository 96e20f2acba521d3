/**
 * The RouterOS API client object: its connection flag, its socket (the bytes
 * the router sends, read through a cursor, and the bytes written to it), the
 * low-level `write`/`read` and the length decoder that advance that socket,
 * `connect`/`disconnect`, and the wrappers that send one command and read the
 * reply.
 */
module Mikrotik {
  import opened Wire
  import opened Reply

  const DEFAULT_PORT: nat := 8728
  const LOGIN: Bytes := "/login"

  /** The second argument of `write`: a list of parameter words, or any other value. */
  datatype Arg = Words(words: seq<Bytes>) | NotList

  /** `is_array($param2) ? $param2 : $param3`. */
  function ParamsOf(param2: Arg, param3: seq<Bytes>): seq<Bytes>
  {
    if param2.Words? then param2.words else param3
  }

  /** What `read` returns: the attribute rows when asked to parse, the sentences otherwise. */
  datatype Answer = Rows(rows: seq<map<Bytes, Bytes>>) | Raw(parts: seq<seq<Bytes>>)

  /** The words of the second `/login`: the user name and the password. */
  function Credentials(user: Bytes, pass: Bytes): seq<Bytes>
  {
    ["=name=" + user, "=password=" + pass]
  }

  /** The sentences one `read` takes from `input` at `cursor`, and where the cursor ends. */
  function Received(input: Bytes, cursor: nat): (r: (seq<seq<Bytes>>, nat))
    requires cursor <= |input|
    ensures cursor <= r.1 <= |input|
  {
    var (ws, end) := ReadWords(input, cursor);
    (Sentences(ws), end)
  }

  /**
   * One command and its reply on the socket: the bytes written, the sentences
   * read back and the cursor after them.  Without a connection nothing is
   * written and nothing is read.
   */
  datatype Exchange = Exchange(sent: Bytes, parts: seq<seq<Bytes>>, cursor: nat)

  function Exchanged(connected: bool, input: Bytes, cursor: nat, command: Bytes, params: seq<Bytes>): (e: Exchange)
    requires cursor <= |input|
    ensures cursor <= e.cursor <= |input|
  {
    if !connected then Exchange([], [], cursor)
    else
      var (parts, next) := Received(input, cursor);
      Exchange(EncodeSentence([command] + params), parts, next)
  }

  /** What a command with a boolean result reports, the bytes it wrote and where the cursor ends. */
  datatype Outcome = Outcome(ok: bool, sent: Bytes, cursor: nat)

  /**
   * The login exchange of `connect` on a freshly opened socket whose router
   * sends `incoming`: `/login`, then, unless the first reply parses to a row
   * with the key `!trap`, `/login` with the name and password.
   */
  function Login(incoming: Bytes, user: Bytes, pass: Bytes): (h: Outcome)
    ensures h.cursor <= |incoming|
    ensures || h.sent == EncodeSentence([LOGIN])
            || h.sent == EncodeSentence([LOGIN]) + EncodeSentence([LOGIN] + Credentials(user, pass))
  {
    var first := Exchanged(true, incoming, 0, LOGIN, []);
    if RowsTrapped(ParseResponse(first.parts)) then Outcome(false, first.sent, first.cursor)
    else
      var second := Exchanged(true, incoming, first.cursor, LOGIN, Credentials(user, pass));
      Outcome(!RowsTrapped(ParseResponse(second.parts)), first.sent + second.sent, second.cursor)
  }

  // Paths and parameter words of the wrappers.

  const USER_ADD: Bytes := "/ip/hotspot/user/add"
  const USER_PRINT: Bytes := "/ip/hotspot/user/print"
  const USER_REMOVE: Bytes := "/ip/hotspot/user/remove"
  const USER_SET: Bytes := "/ip/hotspot/user/set"
  const ACTIVE_LOGIN: Bytes := "/ip/hotspot/active/login"
  const ACTIVE_REMOVE: Bytes := "/ip/hotspot/active/remove"
  const IDENTITY_PRINT: Bytes := "/system/identity/print"
  const PROFILE_PRINT: Bytes := "/ip/hotspot/user/profile/print"
  const QUEUE_ADD: Bytes := "/queue/simple/add"
  const ADDRESS_LIST_ADD: Bytes := "/ip/firewall/address-list/add"

  /** The words of `addHotspotUser`: the comment carries the MAC address when one is given. */
  function UserAddWords(username: Bytes, password: Bytes, profile: Bytes, mac: Bytes): seq<Bytes>
  {
    ["=name=" + username, "=password=" + password, "=profile=" + profile]
      + (if Truthy(mac) then ["=comment=" + mac] else [])
  }

  function HotspotLoginWords(ip: Bytes, mac: Bytes, username: Bytes, password: Bytes): seq<Bytes>
  {
    ["=user=" + username, "=password=" + password, "=ip=" + ip, "=mac-address=" + mac]
  }

  function NameQuery(username: Bytes): seq<Bytes>
  {
    ["?name=" + username]
  }

  function IdWords(id: Bytes): seq<Bytes>
  {
    ["=.id=" + id]
  }

  function ProfileChange(profile: Bytes): seq<Bytes>
  {
    ["=profile=" + profile]
  }

  function PasswordChange(password: Bytes): seq<Bytes>
  {
    ["=password=" + password]
  }

  /** The words of `addBandwidthLimit`: the queue is named `limit-<target>` unless a name is given. */
  function QueueWords(target: Bytes, maxUpload: Bytes, maxDownload: Bytes, name: Bytes): seq<Bytes>
  {
    var queueName := if Truthy(name) then name else "limit-" + target;
    ["=name=" + queueName, "=target=" + target, "=max-limit=" + maxUpload + "/" + maxDownload]
  }

  /** The words of `addToAddressList`: the comment only when one is given. */
  function AddressWords(address: Bytes, listName: Bytes, comment: Bytes): seq<Bytes>
  {
    ["=address=" + address, "=list=" + listName]
      + (if Truthy(comment) then ["=comment=" + comment] else [])
  }

  /**
   * The wrappers that act on a hotspot user by name: look the user up, and
   * when the first row has an id PHP counts as true, send `command` with that
   * id and the `extra` words.  The lookup alone decides the result.
   */
  function UserAction(connected: bool, input: Bytes, cursor: nat, username: Bytes,
                      command: Bytes, extra: seq<Bytes>): (o: Outcome)
    requires cursor <= |input|
    ensures cursor <= o.cursor <= |input|
    ensures !connected ==> o == Outcome(false, [], cursor)
  {
    var found := Exchanged(connected, input, cursor, USER_PRINT, NameQuery(username));
    match FirstUserId(ParseResponse(found.parts))
    case None => Outcome(false, found.sent, found.cursor)
    case Some(id) =>
      var done := Exchanged(connected, input, found.cursor, command, IdWords(id) + extra);
      Outcome(true, found.sent + done.sent, done.cursor)
  }

  lemma AppendAssoc<T>(a: seq<T>, b: seq<T>, c: seq<T>)
    ensures a + (b + c) == a + b + c
  {
  }

  /**
   * `Login` step by step: the first exchange on a fresh socket, then, if its
   * reply has no `!trap` row, the second exchange from where the first ended.
   */
  lemma LoginStages(incoming: Bytes, user: Bytes, pass: Bytes,
                    sent1: Bytes, rows1: seq<map<Bytes, Bytes>>, c1: nat,
                    sent2: Bytes, rows2: seq<map<Bytes, Bytes>>, c2: nat)
    requires sent1 == EncodeSentence([LOGIN] + [])
    requires c1 == Received(incoming, 0).1 && rows1 == ParseResponse(Received(incoming, 0).0)
    requires !RowsTrapped(rows1) ==>
               && sent2 == EncodeSentence([LOGIN] + Credentials(user, pass))
               && c2 == Received(incoming, c1).1 && rows2 == ParseResponse(Received(incoming, c1).0)
    ensures RowsTrapped(rows1) ==> Login(incoming, user, pass) == Outcome(false, sent1, c1)
    ensures !RowsTrapped(rows1) ==> Login(incoming, user, pass) == Outcome(!RowsTrapped(rows2), sent1 + sent2, c2)
  {
  }

  /**
   * `UserAction` step by step on a live socket: the lookup, then, when it
   * yields an id, the command from where the lookup's `read` stopped.
   */
  lemma UserActionStages(input: Bytes, cursor: nat, username: Bytes, command: Bytes, extra: seq<Bytes>,
                         sent1: Bytes, rows1: seq<map<Bytes, Bytes>>, c1: nat, sent2: Bytes, c2: nat)
    requires cursor <= |input|
    requires sent1 == EncodeSentence([USER_PRINT] + NameQuery(username))
    requires c1 == Received(input, cursor).1 && rows1 == ParseResponse(Received(input, cursor).0)
    requires FirstUserId(rows1).Some? ==>
               && sent2 == EncodeSentence([command] + (IdWords(FirstUserId(rows1).value) + extra))
               && c2 == Received(input, c1).1
    ensures FirstUserId(rows1).None? ==> UserAction(true, input, cursor, username, command, extra) == Outcome(false, sent1, c1)
    ensures FirstUserId(rows1).Some? ==> UserAction(true, input, cursor, username, command, extra) == Outcome(true, sent1 + sent2, c2)
  {
  }

  // ---------------------------------------------------------------------
  // What the exchanges make of typical router replies
  // ---------------------------------------------------------------------

  /**
   * A router that refuses the password answers the second `/login` with a
   * `!trap` sentence carrying `=message=...`.  That sentence parses to a row
   * keyed `message`, so `connect` still reports success.
   */
  lemma LoginIgnoresRefusal(incoming: Bytes, user: Bytes, pass: Bytes, m: Bytes, rest: Bytes,
                            mid: nat, end: nat)
    requires |m| < 0x1000_0000
    requires incoming == EncodeSentence([DONE]) + EncodeSentence(TrapSentence(m)) + rest
    requires mid == |EncodeSentence([DONE])| && end == mid + |EncodeSentence(TrapSentence(m))|
    ensures Login(incoming, user, pass)
            == Outcome(true, EncodeSentence([LOGIN] + []) + EncodeSentence([LOGIN] + Credentials(user, pass)), end)
  {
    assert Received(incoming, 0) == ([[DONE]], mid) && Received(incoming, mid) == ([TrapSentence(m)], end) by {
      ReadStopsAfterFirstSentence(incoming, [DONE], TrapSentence(m), rest, mid, end);
      SentencesOfOne([DONE]);
      SentencesOfOne(TrapSentence(m));
    }
    ParseResponseSingle([DONE]);
    TrapReplyUnseen(m);
    LoginStages(incoming, user, pass, EncodeSentence([LOGIN] + []), ParseResponse([[DONE]]), mid,
                EncodeSentence([LOGIN] + Credentials(user, pass)), ParseResponse([TrapSentence(m)]), end);
  }

  /**
   * The parsed check in `connect` fires only on a word `=!trap=...`: a first
   * reply made of such a word stops the login after the first `/login`.
   */
  lemma LoginStopsOnTrapKey(incoming: Bytes, user: Bytes, pass: Bytes, v: Bytes, rest: Bytes, mid: nat)
    requires |v| < 0x1000_0000
    requires incoming == EncodeSentence(TrapKeySentence(v)) + rest
    requires mid == |EncodeSentence(TrapKeySentence(v))|
    ensures Login(incoming, user, pass) == Outcome(false, EncodeSentence([LOGIN] + []), mid)
  {
    assert Received(incoming, 0) == ([TrapKeySentence(v)], mid) by {
      ReadFirstSentence(TrapKeySentence(v), rest);
      SentencesOfOne(TrapKeySentence(v));
    }
    TrapKeySeen(v);
    LoginStages(incoming, user, pass, EncodeSentence([LOGIN] + []), ParseResponse([TrapKeySentence(v)]), mid,
                [], [], mid);
  }

  /**
   * A lookup answered the usual way, a row `!re =.id=...` followed by
   * `!done`: the lookup's `read` stops after the row, so the id is found, and
   * the `read` after the removal consumes the lookup's `!done` instead of the
   * removal's own reply.
   */
  lemma LookupLeavesDone(input: Bytes, username: Bytes, id: Bytes, rest: Bytes, mid: nat, end: nat)
    requires Truthy(id) && |id| < 0x1000_0000
    requires input == EncodeSentence(IdRow(id)) + EncodeSentence([DONE]) + rest
    requires mid == |EncodeSentence(IdRow(id))| && end == mid + |EncodeSentence([DONE])|
    ensures Received(input, 0) == ([IdRow(id)], mid)
    ensures Received(input, mid) == ([[DONE]], end)
    ensures UserAction(true, input, 0, username, USER_REMOVE, [])
            == Outcome(true, EncodeSentence([USER_PRINT] + NameQuery(username))
                             + EncodeSentence([USER_REMOVE] + (IdWords(id) + [])), end)
  {
    assert Received(input, 0) == ([IdRow(id)], mid) && Received(input, mid) == ([[DONE]], end) by {
      ReadStopsAfterFirstSentence(input, IdRow(id), [DONE], rest, mid, end);
      SentencesOfOne(IdRow(id));
      SentencesOfOne([DONE]);
    }
    IdRowParsed(id);
    UserActionStages(input, 0, username, USER_REMOVE, [], EncodeSentence([USER_PRINT] + NameQuery(username)),
                     [map[ID_KEY := id]], mid, EncodeSentence([USER_REMOVE] + (IdWords(id) + [])), end);
  }

  class MikrotikAPI {
    const host: Bytes
    const user: Bytes
    const pass: Bytes
    const port: nat

    var connected: bool

    /** The bytes the router sends on the current socket and how far they have been read. */
    var input: Bytes
    var cursor: nat

    /** The bytes written to the current socket. */
    var output: Bytes

    ghost predicate Valid()
      reads this
    {
      cursor <= |input|
    }

    constructor(host: Bytes, user: Bytes, pass: Bytes, port: nat := DEFAULT_PORT)
      ensures this.host == host && this.user == user && this.pass == pass && this.port == port
      ensures !connected && input == [] && cursor == 0 && output == []
      ensures Valid()
    {
      this.host := host;
      this.user := user;
      this.pass := pass;
      this.port := port;
      connected := false;
      input := [];
      cursor := 0;
      output := [];
    }

    /** `fread($this->socket, $k)`: up to `k` bytes, fewer where the stream ends. */
    method ReadBytes(k: nat) returns (chunk: Bytes)
      requires cursor <= |input|
      modifies this`cursor
      ensures cursor <= |input|
      ensures cursor == Skip(input, old(cursor), k)
      ensures chunk == input[old(cursor)..cursor]
    {
      var next := Skip(input, cursor, k);
      chunk := input[cursor..next];
      cursor := next;
    }

    /** `ord(fread($this->socket, 1))`: 0 once the stream is exhausted. */
    method ReadOrd() returns (b: nat)
      requires cursor <= |input|
      modifies this`cursor
      ensures cursor <= |input|
      ensures b == ByteAt(input, old(cursor)) && cursor == Skip(input, old(cursor), 1)
    {
      var c := ReadBytes(1);
      b := if |c| == 0 then 0 else Ord(c[0]);
    }

    /**
     * The bytes after a leading byte: `ord(fread($this->socket, 1))` taken
     * `k` times and joined most significant first, as the shifted sums of
     * decodeLength join them.
     */
    method ReadTail(k: nat) returns (v: nat)
      requires 1 <= k <= 4 && cursor <= |input|
      modifies this`cursor
      ensures cursor <= |input|
      ensures v == BigEndian(input, old(cursor), k) && cursor == Skip(input, old(cursor), k)
    {
      ghost var pos := cursor;
      var b1 := ReadOrd();
      if k == 1 {
        return b1;
      }
      ReadOn(input, pos, 1);
      var b2 := ReadOrd();
      if k == 2 {
        return (b1 * 0x100) + b2;
      }
      ReadOn(input, pos, 2);
      var b3 := ReadOrd();
      if k == 3 {
        return (b1 * 0x1_0000) + (b2 * 0x100) + b3;
      }
      ReadOn(input, pos, 3);
      var b4 := ReadOrd();
      return (b1 * 0x100_0000) + (b2 * 0x1_0000) + (b3 * 0x100) + b4;
    }

    /**
     * decodeLength: tests the leading byte against the masks in turn, keeps
     * the bits below the matching mask and adds the bytes that follow.
     */
    method ReadLength() returns (len: nat)
      requires cursor <= |input|
      modifies this`cursor
      ensures cursor <= |input|
      ensures (len, cursor) == DecodeLength(input, old(cursor))
    {
      ghost var pos := cursor;
      var b := ReadOrd();
      if b < 0x80 {
        return b;
      }
      LeadByteMasks(b);
      ghost var after := cursor;
      if And(b, 0xC0) == 0x80 {
        var tail := ReadTail(1);
        len := And(b, Not(0xC0)) * 0x100 + tail;
      } else if And(b, 0xE0) == 0xC0 {
        var tail := ReadTail(2);
        len := And(b, Not(0xE0)) * 0x1_0000 + tail;
      } else if And(b, 0xF0) == 0xE0 {
        var tail := ReadTail(3);
        len := And(b, Not(0xF0)) * 0x100_0000 + tail;
      } else if And(b, 0xF8) == 0xF0 {
        len := ReadTail(4);
      } else {
        len := 0;
      }
      DecodeAfterLead(input, pos, b, after, len, cursor);
    }

    /**
     * write: nothing without a connection; otherwise the command word, each
     * parameter word, then a zero byte.
     */
    method Write(command: Bytes, param2: Arg, param3: seq<Bytes>)
      modifies this`output
      ensures !connected ==> output == old(output)
      ensures connected ==> output == old(output) + EncodeSentence([command] + ParamsOf(param2, param3))
    {
      if !connected {
        return;
      }
      var params := ParamsOf(param2, param3);
      ghost var head := old(output) + EncodeWord(command);
      output := output + (EncodeLength(|command|) + command);
      var i := 0;
      assert params[..0] == [];
      while i < |params|
        invariant 0 <= i <= |params|
        invariant output == head + EncodeWords(params[..i])
      {
        assert params[..i + 1] == params[..i] + [params[i]];
        EncodeWordsSnoc(params[..i], params[i]);
        AppendAssoc(head, EncodeWords(params[..i]), EncodeWord(params[i]));
        output := output + (EncodeLength(|params[i]|) + params[i]);
        i := i + 1;
      }
      output := output + [Chr(0)];
      assert params[..i] == params;
      assert ([command] + params)[1..] == params;
      EncodeSentenceCons([command] + params);
    }

    /**
     * read: nothing without a connection; otherwise words up to the first
     * zero length, a new sentence at each word starting with `!`, then the
     * sentences parsed or as they are.
     */
    method Read(parse: bool) returns (answer: Answer)
      requires Valid()
      modifies this`cursor
      ensures Valid()
      ensures !connected ==> cursor == old(cursor) && answer == if parse then Rows([]) else Raw([])
      ensures connected ==> cursor == Received(input, old(cursor)).1
      ensures connected ==> answer == if parse then Rows(ParseResponse(Received(input, old(cursor)).0))
                                     else Raw(Received(input, old(cursor)).0)
    {
      if !connected {
        return if parse then Rows([]) else Raw([]);
      }
      ghost var start := cursor;
      ghost var seen: seq<Bytes> := [];
      var response: seq<seq<Bytes>> := [];
      var current: seq<Bytes> := [];
      assert seen + ReadWords(input, cursor).0 == ReadWords(input, cursor).0;
      while true
        invariant Valid() && start <= cursor
        invariant Gather(seen) == Pending(response, current)
        invariant ReadWords(input, start) == (seen + ReadWords(input, cursor).0, ReadWords(input, cursor).1)
        decreases |input| - cursor
      {
        ghost var here := cursor;
        var length := ReadLength();
        ghost var p := cursor;
        if length == 0 {
          ReadWordsStep(input, here, length, p, p);
          if |current| > 0 {
            response := response + [current];
          }
          assert seen + [] == seen;
          break;
        }
        var line := ReadBytes(length);
        ghost var tail := ReadWords(input, cursor);
        ReadWordsStep(input, here, length, p, cursor);
        AppendAssoc(seen, [line], tail.0);
        if |line| > 0 && line[0] == '!' {
          if |current| > 0 {
            response := response + [current];
          }
          current := [line];
        } else {
          current := current + [line];
        }
        GatherLast(seen + [line], seen, line);
        seen := seen + [line];
      }
      if parse {
        answer := Rows(ParseResponse(response));
      } else {
        answer := Raw(response);
      }
    }

    /**
     * connect: `reachable` says whether the socket opens, `incoming` is what
     * the router will send on it.  A socket that does not open changes
     * nothing.  Otherwise the client counts as connected from then on, and
     * the login exchange decides the result.
     */
    method Connect(reachable: bool, incoming: Bytes) returns (ok: bool)
      requires Valid()
      modifies this`connected, this`input, this`cursor, this`output
      ensures Valid()
      ensures !reachable ==> !ok && connected == old(connected) && input == old(input)
                             && cursor == old(cursor) && output == old(output)
      ensures reachable ==> connected && input == incoming
      ensures reachable ==> var h := Login(incoming, user, pass);
                            ok == h.ok && output == h.sent && cursor == h.cursor
    {
      if !reachable {
        return false;
      }
      input, cursor, output := incoming, 0, [];
      connected := true;
      Write(LOGIN, NotList, []);
      ghost var sent1 := output;
      var response := Read(true);
      ghost var rows1, c1 := response.rows, cursor;
      if RowsTrapped(response.rows) {
        LoginStages(incoming, user, pass, sent1, rows1, c1, [], [], c1);
        return false;
      }
      Write(LOGIN, NotList, Credentials(user, pass));
      ghost var sent2 := output[|sent1|..];
      response := Read(true);
      LoginStages(incoming, user, pass, sent1, rows1, c1, sent2, response.rows, cursor);
      if RowsTrapped(response.rows) {
        return false;
      }
      return true;
    }

    /** disconnect: clears the flag; calling it again changes nothing. */
    method Disconnect()
      modifies this`connected
      ensures !connected
    {
      if connected {
        connected := false;
      }
    }
    /**
     * The `get*` wrappers: send `command` with the parameter words, read the
     * reply and return its rows.
     */
    method Query(command: Bytes, params: seq<Bytes>) returns (rows: seq<map<Bytes, Bytes>>)
      requires Valid()
      modifies this`cursor, this`output
      ensures Valid()
      ensures var e := Exchanged(connected, input, old(cursor), command, params);
              output == old(output) + e.sent && cursor == e.cursor && rows == ParseResponse(e.parts)
    {
      Write(command, NotList, params);
      var answer := Read(true);
      rows := answer.rows;
    }

    /**
     * The action wrappers: send `command` with the parameter words, read the
     * reply unparsed and report `!isset($response[0]['!trap'])`, which holds
     * whatever the router answered.
     */
    method Command(command: Bytes, params: seq<Bytes>) returns (ok: bool)
      requires Valid()
      modifies this`cursor, this`output
      ensures Valid()
      ensures ok
      ensures var e := Exchanged(connected, input, old(cursor), command, params);
              output == old(output) + e.sent && cursor == e.cursor
    {
      Write(command, NotList, params);
      var answer := Read(false);
      RawNeverTrapped(answer.parts);
      ok := !RawTrapped(answer.parts);
    }

    /** hotspotLogin: logs a client in on the hotspot; reports success whatever the reply. */
    method HotspotLogin(ip: Bytes, mac: Bytes, username: Bytes, password: Bytes) returns (ok: bool)
      requires Valid()
      modifies this`cursor, this`output
      ensures Valid()
      ensures ok
      ensures var e := Exchanged(connected, input, old(cursor), ACTIVE_LOGIN, HotspotLoginWords(ip, mac, username, password));
              output == old(output) + e.sent && cursor == e.cursor
    {
      ok := Command(ACTIVE_LOGIN, HotspotLoginWords(ip, mac, username, password));
    }

    /** disconnectUser: removes an active session by id; reports success whatever the reply. */
    method DisconnectUser(id: Bytes) returns (ok: bool)
      requires Valid()
      modifies this`cursor, this`output
      ensures Valid()
      ensures ok
      ensures var e := Exchanged(connected, input, old(cursor), ACTIVE_REMOVE, IdWords(id));
              output == old(output) + e.sent && cursor == e.cursor
    {
      ok := Command(ACTIVE_REMOVE, IdWords(id));
    }

    /**
     * addHotspotUser: adds the user, then, when both an IP and a MAC address
     * are given, logs the user in; the login's result does not change the
     * reported success.
     */
    method AddHotspotUser(username: Bytes, password: Bytes, profile: Bytes, mac: Bytes := "", ip: Bytes := "")
      returns (ok: bool)
      requires Valid()
      modifies this`cursor, this`output
      ensures Valid()
      ensures ok
      ensures var added := Exchanged(connected, input, old(cursor), USER_ADD, UserAddWords(username, password, profile, mac));
              var login := Exchanged(connected, input, added.cursor, ACTIVE_LOGIN, HotspotLoginWords(ip, mac, username, password));
              if Truthy(ip) && Truthy(mac) then output == old(output) + added.sent + login.sent && cursor == login.cursor
              else output == old(output) + added.sent && cursor == added.cursor
    {
      Write(USER_ADD, NotList, UserAddWords(username, password, profile, mac));
      var answer := Read(false);
      RawNeverTrapped(answer.parts);
      ok := !RawTrapped(answer.parts);
      if ok && Truthy(ip) && Truthy(mac) {
        var loggedIn := HotspotLogin(ip, mac, username, password);
      }
    }

    /**
     * The shared shape of removeHotspotUser, updateUserProfile and
     * updateUserPassword: find the user by name, then act on its id.
     */
    method ActOnUser(username: Bytes, command: Bytes, extra: seq<Bytes>) returns (ok: bool)
      requires Valid()
      modifies this`cursor, this`output
      ensures Valid()
      ensures var o := UserAction(connected, input, old(cursor), username, command, extra);
              ok == o.ok && output == old(output) + o.sent && cursor == o.cursor
    {
      var users := Query(USER_PRINT, NameQuery(username));
      var id := FirstUserId(users);
      if id.None? {
        return false;
      }
      ok := Command(command, IdWords(id.value) + extra);
    }

    /** removeHotspotUser: removes the user found by name. */
    method RemoveHotspotUser(username: Bytes) returns (ok: bool)
      requires Valid()
      modifies this`cursor, this`output
      ensures Valid()
      ensures var o := UserAction(connected, input, old(cursor), username, USER_REMOVE, []);
              ok == o.ok && output == old(output) + o.sent && cursor == o.cursor
    {
      ok := ActOnUser(username, USER_REMOVE, []);
    }

    /** updateUserProfile: moves the user found by name to another profile. */
    method UpdateUserProfile(username: Bytes, newProfile: Bytes) returns (ok: bool)
      requires Valid()
      modifies this`cursor, this`output
      ensures Valid()
      ensures var o := UserAction(connected, input, old(cursor), username, USER_SET, ProfileChange(newProfile));
              ok == o.ok && output == old(output) + o.sent && cursor == o.cursor
    {
      ok := ActOnUser(username, USER_SET, ProfileChange(newProfile));
    }

    /** updateUserPassword: sets a new password on the user found by name. */
    method UpdateUserPassword(username: Bytes, newPassword: Bytes) returns (ok: bool)
      requires Valid()
      modifies this`cursor, this`output
      ensures Valid()
      ensures var o := UserAction(connected, input, old(cursor), username, USER_SET, PasswordChange(newPassword));
              ok == o.ok && output == old(output) + o.sent && cursor == o.cursor
    {
      ok := ActOnUser(username, USER_SET, PasswordChange(newPassword));
    }

    /** addBandwidthLimit: adds a simple queue; reports success whatever the reply. */
    method AddBandwidthLimit(target: Bytes, maxUpload: Bytes, maxDownload: Bytes, name: Bytes := "")
      returns (ok: bool)
      requires Valid()
      modifies this`cursor, this`output
      ensures Valid()
      ensures ok
      ensures var e := Exchanged(connected, input, old(cursor), QUEUE_ADD, QueueWords(target, maxUpload, maxDownload, name));
              output == old(output) + e.sent && cursor == e.cursor
    {
      ok := Command(QUEUE_ADD, QueueWords(target, maxUpload, maxDownload, name));
    }

    /** addToAddressList: adds an address to a firewall list; reports success whatever the reply. */
    method AddToAddressList(address: Bytes, listName: Bytes, comment: Bytes := "") returns (ok: bool)
      requires Valid()
      modifies this`cursor, this`output
      ensures Valid()
      ensures ok
      ensures var e := Exchanged(connected, input, old(cursor), ADDRESS_LIST_ADD, AddressWords(address, listName, comment));
              output == old(output) + e.sent && cursor == e.cursor
    {
      ok := Command(ADDRESS_LIST_ADD, AddressWords(address, listName, comment));
    }

    /** getSystemIdentity: the `name` of the first row, `Uptime` when there is none. */
    method GetSystemIdentity() returns (name: Bytes)
      requires Valid()
      modifies this`cursor, this`output
      ensures Valid()
      ensures var e := Exchanged(connected, input, old(cursor), IDENTITY_PRINT, []);
              output == old(output) + e.sent && cursor == e.cursor && name == IdentityOf(ParseResponse(e.parts))
    {
      var rows := Query(IDENTITY_PRINT, []);
      name := IdentityOf(rows);
    }

    /**
     * getHotspotProfiles: connects first when not connected, lists the
     * profiles and keeps the rows with both an id and a name.
     */
    method GetHotspotProfiles(reachable: bool, incoming: Bytes) returns (profiles: seq<Profile>)
      requires Valid()
      modifies this`connected, this`input, this`cursor, this`output
      ensures Valid()
      ensures old(connected) ==>
                var e := Exchanged(true, old(input), old(cursor), PROFILE_PRINT, []);
                connected && input == old(input) && output == old(output) + e.sent && cursor == e.cursor
                && profiles == ProfileRows(ParseResponse(e.parts))
      ensures !old(connected) && !reachable ==>
                !connected && input == old(input) && output == old(output) && cursor == old(cursor)
                && profiles == []
      ensures !old(connected) && reachable ==>
                var h := Login(incoming, user, pass);
                var e := Exchanged(true, incoming, h.cursor, PROFILE_PRINT, []);
                connected && input == incoming && output == h.sent + e.sent && cursor == e.cursor
                && profiles == ProfileRows(ParseResponse(e.parts))
    {
      if !connected {
        var linked := Connect(reachable, incoming);
      }
      var rows := Query(PROFILE_PRINT, []);
      profiles := ProfileRows(rows);
    }
  }
}
