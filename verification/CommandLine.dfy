/** The command line of the client: splitting a typed line and building the request it asks for. */
module CommandLine {
  import opened Basics
  import opened Messages
  import opened Splitting

  const SPACE: byte := 32

  const PING_WORD: Text := Ascii("ping")
  const LOGIN_WORD: Text := Ascii("login")
  const REGISTER_WORD: Text := Ascii("register")
  const CHAT_WORD: Text := Ascii("chat")
  const CHECK_WORD: Text := Ascii("check")
  const QUIT_WORD: Text := Ascii("quit")

  datatype Command = Send(request: Message) | CheckInbox | Quit | ParseFailure

  // ---------- Splitting the line ----------

  /** `std::string::find` from a given position; the length of the text stands for `npos`. */
  function Find(s: Text, c: byte, from: nat): (j: nat)
    requires from <= |s|
    ensures from <= j <= |s|
    ensures forall k :: from <= k < j ==> s[k] != c
    ensures j < |s| ==> s[j] == c
    decreases |s| - from
  {
    if from == |s| || s[from] == c then from else Find(s, c, from + 1)
  }

  /** All parts of the line between spaces, except that an empty last part is dropped. */
  function Arguments(line: Text): seq<Text> {
    var parts := Split(line, SPACE);
    if parts[|parts| - 1] == [] then parts[..|parts| - 1] else parts
  }

  method ParseCommandArguments(str: Text) returns (args: seq<Text>)
    ensures args == Arguments(str)
  {
    hide Split, Find;
    args := [];
    var i := 0;
    var j := Find(str, SPACE, i);
    assert str[0..] == str;
    while j != |str|
      invariant i <= j <= |str| && j == Find(str, SPACE, i)
      invariant args + Split(str[i..], SPACE) == Split(str, SPACE)
      decreases |str| - i
    {
      assert str[i..] == str[i..j] + [SPACE] + str[j + 1..];
      SplitAtSeparator(str[i..j], str[j + 1..], SPACE);
      args := args + [str[i..j]];
      i := j + 1;
      j := Find(str, SPACE, i);
    }
    SplitFree(str[i..], SPACE);
    if i < |str| {
      args := args + [str[i..]];
    }
  }

  /** The line without one final space, if it has one. */
  function LessOneSpace(line: Text): Text {
    if line != [] && line[|line| - 1] == SPACE then line[..|line| - 1] else line
  }

  /** Arguments hold no space, and joined with spaces they are the line, less one final space if it has one. */
  lemma ArgumentsJoinToLine(line: Text)
    ensures AllFree(Arguments(line), SPACE)
    ensures Join(Arguments(line), SPACE) == LessOneSpace(line)
  {
    var parts := Split(line, SPACE);
    SplitThenJoin(line, SPACE);
    var front, last := parts[..|parts| - 1], parts[|parts| - 1];
    assert parts == front + [last];
    if front != [] {
      JoinSnoc(front, last, SPACE);
    }
    if last == [] {
      if front != [] {
        assert line == Join(front, SPACE) + [SPACE];
      }
    } else {
      assert line[|line| - 1] == last[|last| - 1];
    }
  }

  /** The arguments of a line that is not empty are all the parts of it, once a final space is dropped. */
  lemma ArgumentsAreParts(line: Text)
    ensures Arguments(line) == if line == [] then [] else Split(LessOneSpace(line), SPACE)
  {
    var parts := Split(line, SPACE);
    ArgumentsJoinToLine(line);
    if Arguments(line) == [] {
      SplitThenJoin(line, SPACE);
      assert parts == [parts[0]];
    } else {
      JoinThenSplit(Arguments(line), SPACE);
    }
  }

  /** Splitting undoes joining exactly when no argument holds a space and the last is not empty. */
  lemma JoinThenArguments(args: seq<Text>)
    ensures Arguments(Join(args, SPACE)) == args
       <==> AllFree(args, SPACE) && (args != [] ==> args[|args| - 1] != [])
  {
    var line := Join(args, SPACE);
    if args == [] {
      assert Split(line, SPACE) == [[]];
    } else {
      hide Split, Join, Arguments;
      ArgumentsJoinToLine(line);
      if AllFree(args, SPACE) {
        JoinThenSplit(args, SPACE);
        LastArgument(line);
      }
    }
  }

  /** The last part is kept exactly if it is not empty. */
  lemma LastArgument(line: Text)
    ensures Arguments(line) == Split(line, SPACE) <==> Split(line, SPACE)[|Split(line, SPACE)| - 1] != []
  {
    hide Split;
  }

  // ---------- Building the command ----------

  function CommandOf(args: seq<Text>): Command {
    if |args| == 0 then ParseFailure
    else if args[0] == PING_WORD && |args| == 1 then Send(Ping)
    else if args[0] == LOGIN_WORD && |args| == 3 then Send(Login(args[1], args[2]))
    else if args[0] == REGISTER_WORD && |args| == 3 then Send(Register(args[1], args[2]))
    else if args[0] == CHAT_WORD && |args| >= 3 then Send(SendChat(args[1], Join(args[2..], SPACE)))
    else if args[0] == CHECK_WORD then CheckInbox
    else if args[0] == QUIT_WORD then Quit
    else ParseFailure
  }

  method BuildCommand(command: Text) returns (r: Command)
    ensures r == CommandOf(Arguments(command))
  {
    var args := ParseCommandArguments(command);
    if |args| > 0 {
      if args[0] == PING_WORD && |args| == 1 {
        return Send(Ping);
      } else if args[0] == LOGIN_WORD && |args| == 3 {
        return Send(Login(args[1], args[2]));
      } else if args[0] == REGISTER_WORD && |args| == 3 {
        return Send(Register(args[1], args[2]));
      } else if args[0] == CHAT_WORD && |args| >= 3 {
        var chat := args[2];
        assert args[2..3] == [args[2]];
        for k := 3 to |args|
          invariant chat == Join(args[2..k], SPACE)
        {
          JoinSnoc(args[2..k], args[k], SPACE);
          assert args[2..k] + [args[k]] == args[2..k + 1];
          chat := chat + [SPACE] + args[k];
        }
        assert args[2..|args|] == args[2..];
        return Send(SendChat(args[1], chat));
      } else if args[0] == CHECK_WORD {
        return CheckInbox;
      } else if args[0] == QUIT_WORD {
        return Quit;
      }
    }
    return ParseFailure;
  }

  // ---------- Which line builds which command ----------

  /** The request is what the line says, read from the line as a whole; one final space does not count. */
  predicate Typed(line: Text, request: Message) {
    match request
    case Ping => LessOneSpace(line) == Ascii("ping")
    case Login(u, p) =>
      Free(u, SPACE) && Free(p, SPACE) && LessOneSpace(line) == Ascii("login") + [SPACE] + u + [SPACE] + p
    case Register(u, p) =>
      Free(u, SPACE) && Free(p, SPACE) && LessOneSpace(line) == Ascii("register") + [SPACE] + u + [SPACE] + p
    case SendChat(t, c) =>
      Free(t, SPACE) && LessOneSpace(line) == Ascii("chat") + [SPACE] + t + [SPACE] + c
    case _ => false
  }

  /** The line is the word alone, or goes on after it with a space. */
  predicate StartsWith(line: Text, word: Text) {
    line == word || word + [SPACE] <= line
  }

  /** The same read from the arguments. */
  predicate Asks(args: seq<Text>, request: Message) {
    match request
    case Ping => args == [PING_WORD]
    case Login(u, p) => args == [LOGIN_WORD, u, p]
    case Register(u, p) => args == [REGISTER_WORD, u, p]
    case SendChat(t, c) => |args| >= 3 && args[0] == CHAT_WORD && args[1] == t && Join(args[2..], SPACE) == c
    case _ => false
  }

  lemma WordsDiffer()
    ensures PING_WORD != LOGIN_WORD && PING_WORD != REGISTER_WORD && PING_WORD != CHAT_WORD
    ensures PING_WORD != CHECK_WORD && PING_WORD != QUIT_WORD && LOGIN_WORD != REGISTER_WORD
    ensures LOGIN_WORD != CHAT_WORD && LOGIN_WORD != CHECK_WORD && LOGIN_WORD != QUIT_WORD
    ensures REGISTER_WORD != CHAT_WORD && REGISTER_WORD != CHECK_WORD && REGISTER_WORD != QUIT_WORD
    ensures CHAT_WORD != CHECK_WORD && CHAT_WORD != QUIT_WORD && CHECK_WORD != QUIT_WORD
  {
    assert PING_WORD[0] != LOGIN_WORD[0] && PING_WORD[0] != REGISTER_WORD[0] && PING_WORD[0] != CHAT_WORD[0];
    assert QUIT_WORD[0] != PING_WORD[0] && QUIT_WORD[0] != CHAT_WORD[0] && LOGIN_WORD[0] != CHAT_WORD[0];
  }

  lemma WordsAreFree()
    ensures Free(PING_WORD, SPACE) && Free(LOGIN_WORD, SPACE) && Free(REGISTER_WORD, SPACE)
    ensures Free(CHAT_WORD, SPACE) && Free(CHECK_WORD, SPACE) && Free(QUIT_WORD, SPACE)
    ensures PING_WORD != [] && CHECK_WORD != [] && QUIT_WORD != []
  {
  }

  lemma CommandOfArguments(args: seq<Text>)
    ensures forall m :: CommandOf(args) == Send(m) <==> Asks(args, m)
    ensures CommandOf(args) == CheckInbox <==> args != [] && args[0] == CHECK_WORD
    ensures CommandOf(args) == Quit <==> args != [] && args[0] == QUIT_WORD
  {
    WordsDiffer();
    hide Ascii, Join;
  }

  /** The parts of a text are the given ones exactly if these hold no space and the text is their join. */
  lemma PartsAre(text: Text, parts: seq<Text>)
    requires parts != []
    ensures Split(text, SPACE) == parts <==> AllFree(parts, SPACE) && text == Join(parts, SPACE)
  {
    SplitThenJoin(text, SPACE);
    if AllFree(parts, SPACE) {
      JoinThenSplit(parts, SPACE);
    }
  }

  lemma ThreeJoined(word: Text, u: Text, p: Text)
    ensures Join([word, u, p], SPACE) == word + [SPACE] + u + [SPACE] + p
    ensures AllFree([word, u, p], SPACE) <==> Free(word, SPACE) && Free(u, SPACE) && Free(p, SPACE)
  {
    var all, tail := [word, u, p], [u, p];
    assert all[1..] == tail && tail[1..] == [p];
    assert all[0] == word && all[1] == u && all[2] == p;
    assert Join([p], SPACE) == p && Join(tail, SPACE) == u + [SPACE] + p;
    hide Free;
  }

  lemma PairParts(text: Text, word: Text, u: Text, p: Text)
    requires Free(word, SPACE)
    ensures Split(text, SPACE) == [word, u, p]
       <==> Free(u, SPACE) && Free(p, SPACE) && text == word + [SPACE] + u + [SPACE] + p
  {
    PartsAre(text, [word, u, p]);
    ThreeJoined(word, u, p);
    hide Split, Join, Free, AllFree;
  }

  lemma ChatParts(text: Text, word: Text, t: Text, c: Text)
    requires Free(word, SPACE)
    ensures (var parts := Split(text, SPACE);
             |parts| >= 3 && parts[0] == word && parts[1] == t && Join(parts[2..], SPACE) == c)
       <==> Free(t, SPACE) && text == word + [SPACE] + t + [SPACE] + c
  {
    hide Split, Join, AllFree, Free;
    var parts := Split(text, SPACE);
    SplitThenJoin(text, SPACE);
    SplitThenJoin(c, SPACE);
    if |parts| >= 3 && parts[0] == word && parts[1] == t && Join(parts[2..], SPACE) == c {
      assert [word] + ([t] + parts[2..]) == parts;
      JoinFirst(t, parts[2..], SPACE);
      JoinFirst(word, [t] + parts[2..], SPACE);
      AllFreeHas(parts, 1);
    }
    if Free(t, SPACE) && text == word + [SPACE] + t + [SPACE] + c {
      assert text == word + [SPACE] + (t + [SPACE] + c);
      SplitAtSeparator(t, c, SPACE);
      SplitAtSeparator(word, t + [SPACE] + c, SPACE);
      assert parts[2..] == Split(c, SPACE);
    }
  }

  lemma AllFreeHas(parts: seq<Text>, i: nat)
    requires AllFree(parts, SPACE) && i < |parts|
    ensures Free(parts[i], SPACE)
  {
  }

  lemma FirstPart(text: Text, word: Text)
    requires Free(word, SPACE)
    ensures Split(text, SPACE)[0] == word <==> StartsWith(text, word)
  {
    hide Split, Join, AllFree;
    var parts := Split(text, SPACE);
    SplitThenJoin(text, SPACE);
    if parts[0] == word {
      if |parts| == 1 {
        JoinOne(word, SPACE);
        assert parts == [word];
      } else {
        assert parts == [word] + parts[1..];
        JoinFirst(word, parts[1..], SPACE);
      }
    }
    if text == word {
      SplitFree(word, SPACE);
    } else if word + [SPACE] <= text {
      var rest := text[|word| + 1..];
      assert text == word + [SPACE] + rest;
      SplitAtSeparator(word, rest, SPACE);
    }
  }

  /**
   For every line: which request it builds, if any, when it opens the inbox or quits, and that in all
   other cases it is a parse failure.
   */
  lemma CommandMeaning(line: Text)
    ensures forall m :: CommandOf(Arguments(line)) == Send(m) <==> Typed(line, m)
    ensures CommandOf(Arguments(line)) == CheckInbox <==> StartsWith(line, Ascii("check"))
    ensures CommandOf(Arguments(line)) == Quit <==> StartsWith(line, Ascii("quit"))
    ensures CommandOf(Arguments(line)) == ParseFailure
       <==> (forall m :: !Typed(line, m))
            && !StartsWith(line, Ascii("check")) && !StartsWith(line, Ascii("quit"))
  {
    var args, text := Arguments(line), LessOneSpace(line);
    ArgumentsAreParts(line);
    CommandOfArguments(args);
    WordsAreFree();
    StartsLess(line, CHECK_WORD);
    StartsLess(line, QUIT_WORD);
    if line != [] {
      FirstPart(text, CHECK_WORD);
      FirstPart(text, QUIT_WORD);
    }
    forall m
      ensures Asks(args, m) <==> Typed(line, m)
    {
      TypedIsAsked(line, m);
    }
    hide Asks, Typed, CommandOf, StartsWith, Arguments, Split, Ascii;
    assert CommandOf(args).Send? ==> Typed(line, CommandOf(args).request);
  }

  lemma TypedIsAsked(line: Text, m: Message)
    ensures Asks(Arguments(line), m) <==> Typed(line, m)
  {
    var text := LessOneSpace(line);
    ArgumentsAreParts(line);
    WordsAreFree();
    hide Arguments, Split, Join, Free, Ascii;
    match m
    case Ping =>
      PartsAre(text, [PING_WORD]);
      JoinOne(PING_WORD, SPACE);
    case Login(u, p) =>
      PairParts(text, LOGIN_WORD, u, p);
    case Register(u, p) =>
      PairParts(text, REGISTER_WORD, u, p);
    case SendChat(t, c) =>
      ChatParts(text, CHAT_WORD, t, c);
    case _ =>
  }

  lemma StartsLess(line: Text, word: Text)
    requires word != [] && Free(word, SPACE)
    ensures StartsWith(LessOneSpace(line), word) <==> StartsWith(line, word)
  {
    if line != [] && line[|line| - 1] == SPACE {
      assert word[|word| - 1] != SPACE;
      if word + [SPACE] == line {
        assert LessOneSpace(line) == word;
      } else if word + [SPACE] <= line {
        assert word + [SPACE] <= line[..|line| - 1];
      }
      if LessOneSpace(line) == word {
        assert line == word + [SPACE];
      }
    }
  }

  // ---------- Typing a request ----------

  /** The line a user types for a request. */
  function LineFor(request: Message): Text
    requires request.Ping? || request.Login? || request.Register? || request.SendChat?
  {
    match request
    case Ping => PING_WORD
    case Login(u, p) => LOGIN_WORD + [SPACE] + u + [SPACE] + p
    case Register(u, p) => REGISTER_WORD + [SPACE] + u + [SPACE] + p
    case SendChat(t, c) => CHAT_WORD + [SPACE] + t + [SPACE] + c
  }

  /** The requests that can be typed: only a chat's content may hold spaces, and not at its end. */
  predicate Typeable(request: Message) {
    match request
    case Ping => true
    case Login(u, p) => Free(u, SPACE) && Free(p, SPACE) && p != []
    case Register(u, p) => Free(u, SPACE) && Free(p, SPACE) && p != []
    case SendChat(t, c) => Free(t, SPACE) && c != [] && c[|c| - 1] != SPACE
    case _ => false
  }

  /** Typing a request builds exactly that request if and only if it is typeable. */
  lemma TypedRequest(request: Message)
    requires request.Ping? || request.Login? || request.Register? || request.SendChat?
    ensures CommandOf(Arguments(LineFor(request))) == Send(request) <==> Typeable(request)
  {
    hide CommandOf, Arguments, Ascii, Free, LessOneSpace, StartsWith;
    CommandMeaning(LineFor(request));
    assert CommandOf(Arguments(LineFor(request))) == Send(request) <==> Typed(LineFor(request), request);
    match request
    case Login(u, p) => LessAfter(LOGIN_WORD + [SPACE] + u + [SPACE], p);
    case Register(u, p) => LessAfter(REGISTER_WORD + [SPACE] + u + [SPACE], p);
    case SendChat(t, c) => LessAfter(CHAT_WORD + [SPACE] + t + [SPACE], c);
    case Ping => LessPing();
  }

  lemma LessPing()
    ensures LessOneSpace(PING_WORD) == PING_WORD
  {
  }

  /** A final space is taken off the last part of a line, or is the space before it. */
  lemma LessAfter(front: Text, last: Text)
    requires front != [] && front[|front| - 1] == SPACE
    ensures last != [] ==> LessOneSpace(front + last) == front + LessOneSpace(last)
    ensures LessOneSpace(front + last) == front + last <==> last != [] && last[|last| - 1] != SPACE
    ensures Free(last, SPACE) && last != [] ==> last[|last| - 1] != SPACE
  {
    if last == [] {
      assert front + last == front;
    } else {
      assert (front + last)[..|front + last| - 1] == front + last[..|last| - 1];
    }
  }

  /** Whatever follows them, the words for the inbox and for quitting are commands of their own. */
  lemma TypedWord(word: Text, more: seq<Text>)
    requires word == CHECK_WORD || word == QUIT_WORD
    ensures CommandOf(Arguments(Join([word] + more, SPACE))) == if word == CHECK_WORD then CheckInbox else Quit
  {
    hide CommandOf, Arguments, Split, Join, Ascii;
    CommandMeaning(Join([word] + more, SPACE));
    if more == [] {
      assert [word] + more == [word];
      JoinOne(word, SPACE);
    } else {
      JoinFirst(word, more, SPACE);
    }
  }
}
