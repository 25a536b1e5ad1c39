/** Replies read back from a conversation's history, cleaned once more. */
module ReplyHistory {
  import opened Basics
  import opened CodeUnits
  import opened ReplyScripts

  datatype Role = User | Assistant | Tool

  datatype Block = TextBlock(text: Text) | OtherBlock(data: int)

  datatype Message = Message(role: Role, content: seq<Block>)

  const NEWLINE: CodeUnit := 0x0A

  // ---------------------------------------------------------------- what the user wrote

  function TextsOf(content: seq<Block>): seq<Text> {
    if content == [] then []
    else
      var before, last := TextsOf(content[..|content| - 1]), content[|content| - 1];
      if last.TextBlock? && last.text != [] then before + [last.text] else before
  }

  function UserParts(messages: seq<Message>): seq<Text> {
    if messages == [] then []
    else
      var last := messages[|messages| - 1];
      UserParts(messages[..|messages| - 1]) + if last.role.User? then TextsOf(last.content) else []
  }

  function JoinLines(parts: seq<Text>): Text {
    if parts == [] then []
    else if |parts| == 1 then parts[0]
    else JoinLines(parts[..|parts| - 1]) + ([NEWLINE] + parts[|parts| - 1])
  }

  /** One text stays as it is; every further one follows on a line of its own. */
  lemma LinesAreJoined(parts: seq<Text>, line: Text)
    ensures JoinLines([line]) == line
    ensures parts != [] ==> JoinLines(parts + [line]) == JoinLines(parts) + [NEWLINE] + line
  {
    assert (parts + [line])[..|parts|] == parts;
  }

  function CollectUserReplyText(messages: seq<Message>, current: Text): Text {
    JoinLines(UserParts(messages) + if TrimStart(current) != [] then [current] else [])
  }

  function Allowed(u: Unicode, userText: Text): set<nat> {
    ScriptsIn(u, Decode(userText))
  }

  lemma {:induction false} JoinGrows(u: Unicode, parts: seq<Text>, more: seq<Text>)
    ensures Allowed(u, JoinLines(parts)) <= Allowed(u, JoinLines(parts + more))
    decreases |more|
  {
    if more == [] {
      assert parts + more == parts;
    } else {
      var front, last := more[..|more| - 1], more[|more| - 1];
      JoinGrows(u, parts, front);
      var shorter, whole := parts + front, parts + more;
      assert whole[..|whole| - 1] == shorter && whole[|whole| - 1] == last;
      if shorter == [] {
        assert parts == [];
        assert Decode(JoinLines(parts)) == [];
      } else {
        LineKeepsScripts(u, JoinLines(shorter), last);
      }
    }
  }

  /** A line break parts no pair, so what stood before it still counts. */
  lemma LineKeepsScripts(u: Unicode, before: Text, line: Text)
    ensures Allowed(u, before) <= Allowed(u, before + ([NEWLINE] + line))
  {
    DecodeAppend(before, [NEWLINE] + line);
    var all := Decode(before) + Decode([NEWLINE] + line);
    assert forall c :: c in Decode(before) ==> c in all;
  }

  lemma {:induction false} PartsOfLonger(history: seq<Message>, rest: seq<Message>)
    ensures UserParts(history) <= UserParts(history + rest)
    decreases |rest|
  {
    var whole := history + rest;
    if rest == [] {
      assert whole == history;
    } else {
      assert whole[..|whole| - 1] == history + rest[..|rest| - 1];
      PartsOfLonger(history, rest[..|rest| - 1]);
    }
  }

  /** Once a turn is in the history, with whatever follows it, what the user had written by then comes first. */
  lemma TurnStaysInHistory(history: seq<Message>, current: Text, rest: seq<Message>)
    requires TrimStart(current) != []
    ensures UserParts(history) + [current] <= UserParts(history + [Message(User, [TextBlock(current)])] + rest)
  {
    hide TextsOf, UserParts;
    var turn := history + [Message(User, [TextBlock(current)])];
    OneMoreTurn(history, current);
    hide TrimStart;
    PartsOfLonger(turn, rest);
    assert UserParts(turn + rest)[..|UserParts(turn)|] == UserParts(turn);
  }

  lemma OneMoreTurn(history: seq<Message>, current: Text)
    requires current != []
    ensures UserParts(history + [Message(User, [TextBlock(current)])]) == UserParts(history) + [current]
  {
    var turn := history + [Message(User, [TextBlock(current)])];
    var content := [TextBlock(current)];
    assert turn[..|turn| - 1] == history && turn[|turn| - 1].content == content;
    assert content[..|content| - 1] == [] && TextsOf([]) == [];
    assert TextsOf(content) == [current];
  }

  // ---------------------------------------------------------------- which characters count as the user's

  ghost predicate InOne(parts: seq<Text>, c: Char) {
    exists k :: 0 <= k < |parts| && c in Decode(parts[k])
  }

  lemma InOneMore(parts: seq<Text>, last: Text, c: Char)
    ensures InOne(parts + [last], c) <==> InOne(parts, c) || c in Decode(last)
  {
    var all := parts + [last];
    assert forall k :: 0 <= k < |parts| ==> all[k] == parts[k];
    assert all[|parts|] == last;
  }

  lemma {:induction false} InLines(parts: seq<Text>, c: Char)
    requires c != NEWLINE
    ensures c in Decode(JoinLines(parts)) <==> InOne(parts, c)
    decreases |parts|
  {
    hide Decode;
    if |parts| == 1 {
      InOneMore([], parts[0], c);
      assert [] + [parts[0]] == parts;
    } else if parts != [] {
      var front, last := parts[..|parts| - 1], parts[|parts| - 1];
      assert front + [last] == parts;
      InLines(front, c);
      InOneMore(front, last, c);
      DecodeAppend(JoinLines(front), [NEWLINE] + last);
      AfterNewline(last);
    } else {
      assert Decode([]) == [] by { AfterNewline([]); }
    }
  }

  lemma AfterNewline(line: Text)
    ensures Decode([NEWLINE] + line) == [NEWLINE] + Decode(line)
    ensures Decode([]) == []
  {
    assert ([NEWLINE] + line)[1..] == line;
  }

  /** The user wrote this character in one of the messages. */
  ghost predicate Wrote(messages: seq<Message>, c: Char) {
    exists i :: 0 <= i < |messages| && messages[i].role.User? && Holds(messages[i].content, c)
  }

  ghost predicate Holds(content: seq<Block>, c: Char) {
    exists j :: 0 <= j < |content| && content[j].TextBlock? && c in Decode(content[j].text)
  }

  lemma {:induction false} TextsHold(content: seq<Block>, c: Char)
    ensures InOne(TextsOf(content), c) <==> Holds(content, c)
  {
    hide Decode;
    if content != [] {
      var front, last := content[..|content| - 1], content[|content| - 1];
      TextsHold(front, c);
      assert Holds(content, c) <==> Holds(front, c) || (last.TextBlock? && c in Decode(last.text)) by {
        assert forall j :: 0 <= j < |front| ==> content[j] == front[j];
      }
      AfterNewline([]);
      if last.TextBlock? && last.text != [] {
        InOneMore(TextsOf(front), last.text, c);
      }
    }
  }

  lemma {:induction false} PartsHold(messages: seq<Message>, c: Char)
    ensures InOne(UserParts(messages), c) <==> Wrote(messages, c)
  {
    hide Decode, TextsOf, Holds;
    if messages != [] {
      var front, last := messages[..|messages| - 1], messages[|messages| - 1];
      PartsHold(front, c);
      TextsHold(last.content, c);
      assert Wrote(messages, c) <==> Wrote(front, c) || (last.role.User? && Holds(last.content, c)) by {
        assert forall i :: 0 <= i < |front| ==> messages[i] == front[i];
      }
      InEither(UserParts(front), if last.role.User? then TextsOf(last.content) else [], c);
    }
  }

  lemma InEither(a: seq<Text>, b: seq<Text>, c: Char)
    ensures InOne(a + b, c) <==> InOne(a, c) || InOne(b, c)
  {
    assert forall k :: 0 <= k < |a| ==> (a + b)[k] == a[k];
    assert forall k :: 0 <= k < |b| ==> (a + b)[|a| + k] == b[k];
  }

  /** The user wrote this character, in one of the messages or in the turn's own text. */
  ghost predicate WroteByNow(messages: seq<Message>, current: Text, c: Char) {
    Wrote(messages, c) || (TrimStart(current) != [] && c in Decode(current))
  }

  /** What is collected is what the user wrote, wherever it stands, and line breaks. */
  lemma CollectedExactlyWhen(messages: seq<Message>, current: Text, c: Char)
    requires c != NEWLINE
    ensures c in Decode(CollectUserReplyText(messages, current)) <==> WroteByNow(messages, current, c)
  {
    hide Decode, JoinLines, UserParts, TrimStart, Wrote;
    var parts := UserParts(messages);
    PartsHold(messages, c);
    if TrimStart(current) != [] {
      InOneMore(parts, current, c);
      InLines(parts + [current], c);
    } else {
      assert parts + [] == parts;
      InLines(parts, c);
    }
  }

  /** The user wrote a letter, mark or number of this script that is not of those always kept. */
  ghost predicate Uses(u: Unicode, messages: seq<Message>, current: Text, script: nat) {
    exists c: Char ::
      WroteByNow(messages, current, c) && !u.alwaysKept(c) && u.droppable(c) && u.script(c) == Some(script)
  }

  /**
   * A character goes from a reply exactly when it is a letter, mark or number that is not always kept and the user
   * has written nothing in its script, neither in any message nor in the turn's own text.
   */
  lemma GoesExactlyWhen(u: Unicode, messages: seq<Message>, current: Text, c: Char)
    requires u.alwaysKept(NEWLINE)
    ensures Dropped(u, Allowed(u, CollectUserReplyText(messages, current)), c)
      <==> !u.alwaysKept(c) && u.droppable(c) && (u.script(c).Some? ==> !Uses(u, messages, current, u.script(c).value))
  {
    hide Decode, CollectUserReplyText, WroteByNow;
    var userText := CollectUserReplyText(messages, current);
    forall own: Char | own != NEWLINE
      ensures own in Decode(userText) <==> WroteByNow(messages, current, own)
    {
      CollectedExactlyWhen(messages, current, own);
    }
  }

  // ---------------------------------------------------------------- cleaning the history

  function CleanBlock(u: Unicode, userText: Text, b: Block): Block {
    if b.OtherBlock? || b.text == [] then b else TextBlock(Present(u, Allowed(u, userText), userText, b.text))
  }

  function CleanContent(u: Unicode, userText: Text, content: seq<Block>): (r: seq<Block>)
    ensures |r| == |content| && forall i :: 0 <= i < |r| ==> r[i] == CleanBlock(u, userText, content[i])
  {
    seq(|content|, i requires 0 <= i < |content| => CleanBlock(u, userText, content[i]))
  }

  function CleanMessage(u: Unicode, userText: Text, m: Message): Message {
    if m.role.Assistant? then Message(m.role, CleanContent(u, userText, m.content)) else m
  }

  /** The history as it is shown: only the texts of the assistant's messages may differ. */
  function Cleaned(u: Unicode, messages: seq<Message>): (r: seq<Message>)
    ensures |r| == |messages|
    ensures forall i :: 0 <= i < |r| ==> r[i] == CleanMessage(u, CollectUserReplyText(messages, []), messages[i])
  {
    seq(|messages|, i requires 0 <= i < |messages| => CleanMessage(u, CollectUserReplyText(messages, []), messages[i]))
  }

  method SanitizeContent(u: Unicode, userText: Text, content: seq<Block>) returns (next: seq<Block>, changed: bool)
    ensures next == CleanContent(u, userText, content)
    ensures !changed ==> next == content
  {
    hide Present, Allowed;
    next, changed := [], false;
    for k := 0 to |content|
      invariant |next| == k && forall i :: 0 <= i < k ==> next[i] == CleanBlock(u, userText, content[i])
      invariant !changed ==> next == content[..k]
    {
      var block := content[k];
      if block.TextBlock? && block.text != [] {
        var text := Present(u, Allowed(u, userText), userText, block.text);
        if text != block.text {
          changed := true;
        }
        block := TextBlock(text);
      }
      next := next + [block];
    }
  }

  /** The list that came in is handed back where nothing changes. */
  method SanitizeAssistantMessages(u: Unicode, messages: seq<Message>) returns (r: seq<Message>)
    ensures r == Cleaned(u, messages)
  {
    hide CleanContent, CollectUserReplyText;
    var userText := CollectUserReplyText(messages, []);
    var next: seq<Message>, changed := [], false;
    for k := 0 to |messages|
      invariant |next| == k && forall i :: 0 <= i < k ==> next[i] == CleanMessage(u, userText, messages[i])
      invariant !changed ==> next == messages[..k]
    {
      var message := messages[k];
      if message.role.Assistant? {
        var content, blockChanged := SanitizeContent(u, userText, message.content);
        if blockChanged {
          changed := true;
          message := Message(message.role, content);
        }
      }
      next := next + [message];
    }
    r := if changed then next else messages;
  }

  lemma {:induction false} UserPartsStay(a: seq<Message>, b: seq<Message>)
    requires |a| == |b| && forall i :: 0 <= i < |a| ==> a[i].role == b[i].role && (a[i].role.User? ==> a[i] == b[i])
    ensures UserParts(a) == UserParts(b)
  {
    if a != [] {
      UserPartsStay(a[..|a| - 1], b[..|b| - 1]);
    }
  }

  /** A text that a second presentation would change again. */
  ghost predicate Unsettled(u: Unicode, allowed: set<nat>, later: set<nat>, t: Text) {
    SomeGap(u, allowed, later, Decode(t)) && (HasPayload(u, Strip(u, allowed, t)) || !AnyLetter(u, Decode(t)))
  }

  /** What is shown of a reply: one that was broken off gets no fallback. */
  function Shown(u: Unicode, userText: Text, reply: Text, brokenOff: bool): Text {
    if brokenOff then Strip(u, Allowed(u, userText), reply) else Present(u, Allowed(u, userText), userText, reply)
  }

  /**
   * A reply shown live stays as it was shown when it is read back later, however the conversation has
   * gone on: the scripts allowed then include those allowed at the time.  The one exception is a reply
   * in which dropped characters stood between the two halves of a character that is still dropped.
   */
  lemma LiveReplyStaysExactlyWhen(u: Unicode, history: seq<Message>, current: Text, later: seq<Message>, reply: Text,
      brokenOff: bool)
    requires Sane(u) && IsUtf16(reply)
    requires UserParts(history) + (if TrimStart(current) != [] then [current] else []) <= UserParts(later)
    ensures var atTheTime, now := CollectUserReplyText(history, current), CollectUserReplyText(later, []);
      var shown := Shown(u, atTheTime, reply, brokenOff);
      Present(u, Allowed(u, now), now, shown) == shown
      <==> if brokenOff then !SomeGap(u, Allowed(u, atTheTime), Allowed(u, now), Decode(reply))
           else !Unsettled(u, Allowed(u, atTheTime), Allowed(u, now), reply)
  {
    hide Sane, Present, Strip, SomeGap, Decode, Allowed, JoinLines, UserParts, TrimStart, Unsettled;
    var atTheTime, now := CollectUserReplyText(history, current), CollectUserReplyText(later, []);
    var parts := UserParts(history) + if TrimStart(current) != [] then [current] else [];
    var more := UserParts(later)[|parts|..];
    assert UserParts(later) == parts + more;
    assert UserParts(later) + [] == UserParts(later);
    JoinGrows(u, parts, more);
    PresentStableExactlyWhen(u, Allowed(u, atTheTime), Allowed(u, now), atTheTime, now, reply);
    StrippedStableExactlyWhen(u, Allowed(u, atTheTime), Allowed(u, now), now, reply);
    UnsettledIs(u, Allowed(u, atTheTime), Allowed(u, now), reply);
  }

  /** One such reply, in a conversation in which the user has written nothing yet: reading it back changes it. */
  lemma HalvesDoNotStay()
    ensures var shown := Present(SMALL_TABLES, Allowed(SMALL_TABLES, []), [], HALVES);
      && IsUtf16(HALVES) && Sane(SMALL_TABLES)
      && Present(SMALL_TABLES, Allowed(SMALL_TABLES, []), [], shown) != shown
      && var history := [Message(Assistant, [TextBlock(HALVES)])];
         Cleaned(SMALL_TABLES, Cleaned(SMALL_TABLES, history)) != Cleaned(SMALL_TABLES, history)
  {
    hide Sane, Present, Strip, SomeGap, Decode;
    NothingAllowed(SMALL_TABLES);
    HalvesRejoin();
    var history := [Message(Assistant, [TextBlock(HALVES)])];
    var once := Cleaned(SMALL_TABLES, history);
    var twice := Cleaned(SMALL_TABLES, once);
    NoUserText(HALVES);
    var shown := [0xD800, 0xDC00];
    assert once[0].content[0] == TextBlock(shown);
    assert once[0].content == [TextBlock(shown)];
    assert once == [Message(Assistant, [TextBlock(shown)])];
    NoUserText(shown);
    assert twice[0].content[0] != once[0].content[0];
  }

  lemma NoUserText(t: Text)
    ensures CollectUserReplyText([Message(Assistant, [TextBlock(t)])], []) == []
  {
    var history := [Message(Assistant, [TextBlock(t)])];
    assert history[..0] == [];
    assert UserParts(history) == [];
  }

  lemma NothingAllowed(u: Unicode)
    ensures Allowed(u, []) == {}
  {
  }

  lemma UnsettledIs(u: Unicode, allowed: set<nat>, later: set<nat>, t: Text)
    ensures Unsettled(u, allowed, later, t)
      <==> SomeGap(u, allowed, later, Decode(t)) && (HasPayload(u, Strip(u, allowed, t)) || !AnyLetter(u, Decode(t)))
  {
  }

  /** Cleaning a cleaned history changes nothing, exactly when each of its replies is of that kind. */
  lemma CleanedTwiceExactlyWhen(u: Unicode, messages: seq<Message>)
    requires Sane(u)
    requires forall i, j :: 0 <= i < |messages| && 0 <= j < |messages[i].content| && messages[i].content[j].TextBlock? ==>
      IsUtf16(messages[i].content[j].text)
    ensures var allowed := Allowed(u, CollectUserReplyText(messages, []));
      Cleaned(u, Cleaned(u, messages)) == Cleaned(u, messages)
      <==> forall i, j :: 0 <= i < |messages| && 0 <= j < |messages[i].content| ==>
             !(messages[i].role.Assistant? && messages[i].content[j].TextBlock?
               && Unsettled(u, allowed, allowed, messages[i].content[j].text))
  {
    hide Sane, Present, Strip, SomeGap, Decode, Allowed, JoinLines, CollectUserReplyText, AnyLetter, HasPayload;
    var userText := CollectUserReplyText(messages, []);
    var once := Cleaned(u, messages);
    var twice := Cleaned(u, once);
    assert CollectUserReplyText(once, []) == userText by {
      UserPartsStay(messages, once);
      SameCollected(messages, once);
    }
    forall i, j | 0 <= i < |messages| && 0 <= j < |messages[i].content| && messages[i].role.Assistant?
      ensures twice[i].content[j] == once[i].content[j]
        <==> !(messages[i].content[j].TextBlock?
               && Unsettled(u, Allowed(u, userText), Allowed(u, userText), messages[i].content[j].text))
    {
      BlockTwice(u, userText, messages[i].content[j]);
    }
    assert twice == once <==> forall i :: 0 <= i < |once| ==> twice[i] == once[i];
  }

  lemma SameCollected(a: seq<Message>, b: seq<Message>)
    requires UserParts(a) == UserParts(b)
    ensures CollectUserReplyText(a, []) == CollectUserReplyText(b, [])
  {
  }

  lemma BlockTwice(u: Unicode, userText: Text, b: Block)
    requires Sane(u) && (b.TextBlock? ==> IsUtf16(b.text))
    ensures CleanBlock(u, userText, CleanBlock(u, userText, b)) == CleanBlock(u, userText, b)
      <==> !(b.TextBlock? && Unsettled(u, Allowed(u, userText), Allowed(u, userText), b.text))
  {
    hide Sane, Strip, SomeGap, Allowed;
    var allowed := Allowed(u, userText);
    NothingStaysNothing(u, allowed, userText);
    if b.TextBlock? {
      PresentStableExactlyWhen(u, allowed, allowed, userText, userText, b.text);
    }
  }

  lemma NothingStaysNothing(u: Unicode, allowed: set<nat>, userText: Text)
    ensures Present(u, allowed, userText, []) == []
  {
  }
}
