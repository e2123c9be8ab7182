/**
  `ParseMessage` (utils.go): an incoming chat event becomes a
  `NarwhalMessage` that names the sender three ways, says whether the sender
  is authenticated and an admin, and splits the text into a command and its
  parameters.

  The chat client is not part of this model. Its answers come in as values:
  the event's fields, whether the event came from a channel (and the
  channel, its first parameter), and the client's record of the sender,
  if it has one, with the sender's permissions per channel.
*/
module Messages {
  import opened Wrappers
  import opened GoStrings
  import opened Matching
  import opened Admins

  /** The sender of an event: nick, ident and host. */
  datatype Source = Source(name: string, ident: string, host: string)

  /**
    An incoming event: its sender, `Some(c)` when it came from channel `c`
    (a direct message otherwise), and its last parameter, the text.
  */
  datatype Event = Event(source: Source, channel: Option<string>, last: string)

  /** The sender's permissions in one channel, reduced to whether they make the sender trusted there. */
  datatype ChannelPerms = ChannelPerms(trusted: bool)

  /** The client's record of a user: the channels the user is in, with the user's permissions there. */
  datatype ClientUser = ClientUser(perms: map<string, ChannelPerms>)

  /** The record handed to the command handlers. */
  datatype NarwhalMessage = NarwhalMessage(
    admin: bool,
    authenticated: bool,
    channel: string,
    command: string,
    host: string,
    fullIssuer: string,
    issuer: string,
    message: string,
    messageNoCmd: string,
    params: seq<string>)

  /** The part of a message that comes from the text alone. */
  datatype ParsedText = ParsedText(command: string, params: seq<string>, messageNoCmd: string)

  /**
    The text handling of `ParseMessage`. The text is trimmed and split on
    single spaces. When it starts with `.`, the command is the first piece
    with every `.` deleted and the parameters are the pieces after it; the
    text without its command is the trimmed text less a leading `.` plus
    command, trimmed again. Text that does not start with `.` has no command,
    no parameters, and is its own text without command.
  */
  function ParseText(last: string): (p: ParsedText)
    ensures p.command != "" ==> "." <= TrimSpace(last)
    ensures '.' !in p.command && ' ' !in p.command
    ensures !("." <= TrimSpace(last)) ==>
      p.command == "" && p.params == [] && p.messageNoCmd == TrimSpace(last)
    ensures "." <= TrimSpace(last) ==>
      exists word :: [word] + p.params == Split(TrimSpace(last), ' ') && RemoveChar(word, '.') == p.command
    ensures Trimmed(p.messageNoCmd)
  {
    var message := TrimSpace(last);
    var msgSplit := Split(message, ' ');
    if HasPrefix(message, ".") then
      var command := RemoveChar(msgSplit[0], '.');
      RemoveCharMembers(msgSplit[0], '.', ' ');
      var params := if |msgSplit| > 1 then msgSplit[1..] else [];
      assert [msgSplit[0]] + params == msgSplit;
      ParsedText(command, params, TrimSpace(TrimPrefix(message, "." + command)))
    else
      // The command is empty here, so `"." + command` is `"."`.
      TrimSpaceOfTrimmed(message);
      ParsedText("", [], TrimSpace(TrimPrefix(message, ".")))
  }

  /**
    A command line `.cmd rest`, with no `.` or space in `cmd`, parses to
    the command `cmd`, the pieces of `rest` as parameters, and `rest`
    trimmed as the text without command.
  */
  lemma CommandWithArguments(last: string, cmd: string, rest: string)
    requires '.' !in cmd && ' ' !in cmd
    requires TrimSpace(last) == "." + cmd + " " + rest
    ensures ParseText(last) == ParsedText(cmd, Split(rest, ' '), TrimSpace(rest))
  {
    CommandLinePieces(TrimSpace(last), cmd, rest);
  }

  /** The steps of `ParseText` on a trimmed command line `.cmd rest`. */
  lemma CommandLinePieces(message: string, cmd: string, rest: string)
    requires '.' !in cmd && ' ' !in cmd
    requires message == "." + cmd + " " + rest
    ensures Split(message, ' ') == ["." + cmd] + Split(rest, ' ')
    ensures RemoveChar("." + cmd, '.') == cmd
    ensures HasPrefix(message, ".")
    ensures TrimSpace(TrimPrefix(message, "." + cmd)) == TrimSpace(rest)
  {
    SplitCommandLine(message, cmd, rest);
    CommandWord(cmd);
    StripCommandWord(message, cmd, rest);
  }

  lemma SplitCommandLine(message: string, cmd: string, rest: string)
    requires ' ' !in cmd
    requires message == "." + cmd + " " + rest
    ensures Split(message, ' ') == ["." + cmd] + Split(rest, ' ')
  {
    assert message == ("." + cmd) + [' '] + rest;
    SplitCons("." + cmd, rest, ' ');
  }

  /** Deleting the dots of `.cmd` leaves `cmd` when `cmd` has none. */
  lemma CommandWord(cmd: string)
    requires '.' !in cmd
    ensures RemoveChar("." + cmd, '.') == cmd
  {
    RemoveCharAppend(".", cmd, '.');
  }

  lemma StripCommandWord(message: string, cmd: string, rest: string)
    requires message == "." + cmd + " " + rest
    ensures HasPrefix(message, ".")
    ensures TrimSpace(TrimPrefix(message, "." + cmd)) == TrimSpace(rest)
  {
    assert message == "." + cmd + (" " + rest);
    StripWord(message, "." + cmd, " " + rest);
    assert message[0] == '.';
    TrimSpaceLeadingSpace(' ', rest);
  }

  /** Trimming a word off the front of `word + tail` leaves `tail`. */
  lemma StripWord(message: string, word: string, tail: string)
    requires message == word + tail
    ensures HasPrefix(message, word) && TrimPrefix(message, word) == tail
  {
    assert message[..|word|] == word && message[|word|..] == tail;
  }

  /** A command line `.cmd` alone has no parameters and nothing besides the command. */
  lemma CommandAlone(last: string, cmd: string)
    requires '.' !in cmd && ' ' !in cmd
    requires TrimSpace(last) == "." + cmd
    ensures ParseText(last) == ParsedText(cmd, [], "")
  {
    CommandAlonePieces("." + cmd, cmd);
  }

  /** The steps of `ParseText` on a trimmed line `.cmd`. */
  lemma CommandAlonePieces(word: string, cmd: string)
    requires '.' !in cmd && ' ' !in cmd
    requires word == "." + cmd
    ensures Split(word, ' ') == [word]
    ensures RemoveChar(word, '.') == cmd
    ensures HasPrefix(word, ".") && TrimPrefix(word, "." + cmd) == ""
  {
    SplitPiece(word, ' ');
    CommandWord(cmd);
    assert word == word + "";
  }

  /**
    Consecutive spaces are not collapsed: `.cmd  rest`, with two spaces,
    has an empty first parameter before the pieces of `rest`.
  */
  lemma DoubleSpaceGivesEmptyParam(last: string, cmd: string, rest: string)
    requires '.' !in cmd && ' ' !in cmd
    requires TrimSpace(last) == "." + cmd + "  " + rest
    ensures ParseText(last) == ParsedText(cmd, [""] + Split(rest, ' '), TrimSpace(rest))
  {
    DoubleSpaceLine(cmd, rest);
    CommandWithArguments(last, cmd, " " + rest);
    LeadingSpaceRest(rest);
  }

  lemma DoubleSpaceLine(cmd: string, rest: string)
    ensures "." + cmd + "  " + rest == "." + cmd + " " + (" " + rest)
  {
    assert "  " == " " + " ";
  }

  /** A rest that starts with a space splits into an empty piece first, and trims like the rest. */
  lemma LeadingSpaceRest(rest: string)
    ensures Split(" " + rest, ' ') == [""] + Split(rest, ' ')
    ensures TrimSpace(" " + rest) == TrimSpace(rest)
  {
    assert " " + rest == "" + [' '] + rest && " " + rest == [' '] + rest;
    SplitCons("", rest, ' ');
    TrimSpaceLeadingSpace(' ', rest);
  }

  /**
    Every `.` of the first piece is deleted from the command, so a command
    line written with two dots, `..cmd rest`, still has the command `cmd`
    and the parameters of `rest`, but `.` plus command is not a prefix of
    it and its text without command is the whole trimmed line.
  */
  lemma DoubleDotKeepsCommandText(last: string, cmd: string, rest: string)
    requires '.' !in cmd && ' ' !in cmd && cmd != ""
    requires TrimSpace(last) == ".." + cmd + " " + rest
    ensures ParseText(last) == ParsedText(cmd, Split(rest, ' '), TrimSpace(last))
  {
    var message := TrimSpace(last);
    DoubleDotPieces(message, cmd, rest);
    TrimSpaceOfTrimmed(message);
  }

  /** The steps of `ParseText` on a trimmed line `..cmd rest`. */
  lemma DoubleDotPieces(message: string, cmd: string, rest: string)
    requires '.' !in cmd && ' ' !in cmd && cmd != ""
    requires message == ".." + cmd + " " + rest
    ensures Split(message, ' ') == [".." + cmd] + Split(rest, ' ')
    ensures RemoveChar(".." + cmd, '.') == cmd
    ensures HasPrefix(message, ".") && !HasPrefix(message, "." + cmd)
  {
    var word := ".." + cmd;
    assert message == word + [' '] + rest;
    SplitCons(word, rest, ' ');
    DoubleDotWord(cmd);
    assert message == "." + message[1..];
    assert message[1] == '.' && ("." + cmd)[1] == cmd[0];
  }

  lemma DoubleDotWord(cmd: string)
    requires '.' !in cmd
    ensures RemoveChar(".." + cmd, '.') == cmd
  {
    assert ".." + cmd == "." + ("." + cmd);
    RemoveCharAppend(".", "." + cmd, '.');
    CommandWord(cmd);
  }

  /**
    `ParseMessage`. The issuer is the nick, or the ident when the nick is
    empty; the full issuer is `ident@host`. A sender the client does not
    know is neither authenticated nor an admin, and the message then has no
    channel. For a known sender in a channel, authentication is the
    sender's trust in that channel (none when the client has no permissions
    for that channel); in a direct message it is whether some admin
    requirement accepts the full issuer. An admin is an authenticated
    sender that some admin requirement accepts by issuer, host or full
    issuer, so in a direct message the two flags agree. The text fields
    are those of `ParseText` on the event's last parameter, and `message`
    is that parameter as it came.
  */
  method ParseMessage(rx: Regexp, admins: seq<string>, e: Event, clientUser: Option<ClientUser>)
    returns (m: NarwhalMessage)
    ensures m.issuer == (if e.source.name == "" then e.source.ident else e.source.name)
    ensures m.fullIssuer == e.source.ident + "@" + e.source.host
    ensures m.host == e.source.host && m.message == e.last
    ensures m.channel == (if clientUser.Some? && e.channel.Some? then e.channel.value else "")
    ensures clientUser.None? ==> !m.authenticated && !m.admin
    ensures clientUser.Some? && e.channel.Some? ==>
      (m.authenticated <==> e.channel.value in clientUser.value.perms
                            && clientUser.value.perms[e.channel.value].trusted)
    ensures clientUser.Some? && e.channel.None? ==>
      (m.authenticated <==> exists i :: 0 <= i < |admins| && Matches(rx, admins[i], m.fullIssuer))
    ensures m.admin <==> m.authenticated && SomeAdminAccepts(rx, admins, m.issuer, m.fullIssuer, m.host)
    ensures m.admin ==> m.authenticated
    ensures clientUser.Some? && e.channel.None? ==> (m.admin <==> m.authenticated)
    ensures ParsedText(m.command, m.params, m.messageNoCmd) == ParseText(e.last)
  {
    var channel := "";
    var user := e.source.name;
    if user == "" {
      user := e.source.ident;
    }
    var fullIssuer := e.source.ident + "@" + e.source.host;

    var authenticated := false;
    if clientUser.Some? {
      if e.channel.Some? {
        channel := e.channel.value;
        if channel in clientUser.value.perms {
          authenticated := clientUser.value.perms[channel].trusted;
        }
      } else {
        var userInFullIssuer := false;
        var i := 0;
        while i < |admins|
          invariant 0 <= i <= |admins|
          invariant !userInFullIssuer
          invariant forall j :: 0 <= j < i ==> !Matches(rx, admins[j], fullIssuer)
        {
          userInFullIssuer := Matches(rx, admins[i], fullIssuer);
          if userInFullIssuer {
            break;
          }
          i := i + 1;
        }
        authenticated := userInFullIssuer;
      }
    }

    var parsed := ParseText(e.last);
    var isAdmin;
    ghost var examined;
    isAdmin, examined := IsAdmin(rx, admins, user, fullIssuer, e.source.host);
    if clientUser.Some? && e.channel.None? && authenticated {
      var k :| 0 <= k < |admins| && Matches(rx, admins[k], fullIssuer);
      assert AcceptsSender(rx, admins[k], user, fullIssuer, e.source.host);
    }
    m := NarwhalMessage(
      admin := isAdmin && authenticated,
      authenticated := authenticated,
      channel := channel,
      command := parsed.command,
      host := e.source.host,
      fullIssuer := fullIssuer,
      issuer := user,
      message := e.last,
      messageNoCmd := parsed.messageNoCmd,
      params := parsed.params);
  }

  /**
    A command such as `.ban x` sent in a channel by a known sender who is
    not trusted there is neither authenticated nor an admin, whatever the
    admin list, and still carries its command and parameters.
  */
  method UntrustedChannelCommand(rx: Regexp, admins: seq<string>, sender: Source, channel: string,
                                 last: string, cmd: string, rest: string)
    returns (m: NarwhalMessage)
    requires '.' !in cmd && ' ' !in cmd
    requires TrimSpace(last) == "." + cmd + " " + rest
    ensures !m.admin && !m.authenticated && m.channel == channel
    ensures m.command == cmd && m.params == Split(rest, ' ')
  {
    CommandWithArguments(last, cmd, rest);
    var user := ClientUser(map[channel := ChannelPerms(false)]);
    m := ParseMessage(rx, admins, Event(sender, Some(channel), last), Some(user));
  }

  /**
    Example: a direct message from a known sender whose full
    issuer an admin requirement accepts is authenticated, and therefore an
    admin, whatever the text of the message.
  */
  method DirectAdminExample(rx: Regexp, sender: Source, admins: seq<string>, k: nat, last: string)
    returns (m: NarwhalMessage)
    requires k < |admins| && Matches(rx, admins[k], sender.ident + "@" + sender.host)
    ensures m.authenticated && m.admin
  {
    m := ParseMessage(rx, admins, Event(sender, None, last), Some(ClientUser(map[])));
  }
}
