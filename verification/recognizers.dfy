/**
 * The per-line recognisers of internal/mermaid/parser.go. Each regular
 * expression of the source is written out as a scan over the line that
 * follows Go's leftmost-first (backtracking-equivalent) match semantics, with
 * RE2's ASCII classes: `\w` is [0-9A-Za-z_], `\s` is [\t\n\f\r ] and `.` is
 * any character but '\n'. A scan returns the length of what it consumed and
 * matching continues on the remainder of the line.
 */
module Recognizers {
  import opened Options
  import opened Text
  import opened Model

  // ---------------------------------------------------------------------------
  // Character classes and scanning helpers

  /** RE2's `\w` */
  predicate IsWordChar(c: char) {
    'a' <= c <= 'z' || 'A' <= c <= 'Z' || '0' <= c <= '9' || c == '_'
  }

  /** RE2's `\s` */
  predicate IsRegexSpace(c: char) {
    c == '\t' || c == '\n' || c == '\U{000C}' || c == '\r' || c == ' '
  }

  predicate AllWord(s: string) {
    forall i :: 0 <= i < |s| ==> IsWordChar(s[i])
  }

  /** What `\w+` captures. */
  predicate IsWord(s: string) {
    |s| > 0 && AllWord(s)
  }

  predicate AllRegexSpace(s: string) {
    forall i :: 0 <= i < |s| ==> IsRegexSpace(s[i])
  }

  /** Length of the greedy `\w*` at the start of s. */
  function WordLen(s: string): (n: nat)
    ensures n <= |s| && AllWord(s[..n])
    ensures n == |s| || !IsWordChar(s[n])
  {
    if s != [] && IsWordChar(s[0]) then
      var n := 1 + WordLen(s[1..]);
      assert s[..n] == [s[0]] + s[1..][..n - 1];
      n
    else 0
  }

  /** Length of the greedy `\s*` at the start of s. */
  function SpaceLen(s: string): (n: nat)
    ensures n <= |s| && AllRegexSpace(s[..n])
    ensures n == |s| || !IsRegexSpace(s[n])
  {
    if s != [] && IsRegexSpace(s[0]) then
      var n := 1 + SpaceLen(s[1..]);
      assert s[..n] == [s[0]] + s[1..][..n - 1];
      n
    else 0
  }

  /** Length of the greedy `.*` at the start of s: up to the first '\n'. */
  function LineLen(s: string): (n: nat)
    ensures n <= |s| && '\n' !in s[..n]
    ensures n == |s| || s[n] == '\n'
  {
    if s != [] && s[0] != '\n' then
      var n := 1 + LineLen(s[1..]);
      assert s[..n] == [s[0]] + s[1..][..n - 1];
      n
    else 0
  }

  lemma {:induction false} WordLenOf(w: string, y: string)
    requires AllWord(w) && (y == [] || !IsWordChar(y[0]))
    ensures WordLen(w + y) == |w|
    decreases |w|
  {
    if w == [] {
      assert w + y == y;
    } else {
      assert (w + y)[1..] == w[1..] + y;
      WordLenOf(w[1..], y);
    }
  }

  lemma {:induction false} SpaceLenOf(sp: string, y: string)
    requires AllRegexSpace(sp) && (y == [] || !IsRegexSpace(y[0]))
    ensures SpaceLen(sp + y) == |sp|
    decreases |sp|
  {
    if sp == [] {
      assert sp + y == y;
    } else {
      assert (sp + y)[1..] == sp[1..] + y;
      SpaceLenOf(sp[1..], y);
    }
  }

  lemma {:induction false} LineLenOf(t: string, y: string)
    requires '\n' !in t && (y == [] || y[0] == '\n')
    ensures LineLen(t + y) == |t|
    decreases |t|
  {
    if t == [] {
      assert t + y == y;
    } else {
      assert (t + y)[1..] == t[1..] + y;
      LineLenOf(t[1..], y);
    }
  }

  // ---------------------------------------------------------------------------
  // Skip predicates

  /** shouldSkipLine: blank, `%%` comment, or the ER header. */
  predicate ShouldSkipLine(line: string) {
    line == "" || HasPrefix(line, "%%") || HasPrefix(line, "erDiagram")
  }

  /** shouldSkipSequenceLine: blank, `%%` comment, or the sequence header. */
  predicate ShouldSkipSequenceLine(line: string) {
    line == "" || HasPrefix(line, "%%") || HasPrefix(line, "sequenceDiagram")
  }

  // ---------------------------------------------------------------------------
  // parseEntityStart: optional spaces, a word (the entity name), optional
  // spaces, then an opening brace; anything may follow.

  function ParseEntityStart(line: string): (r: Option<Entity>)
    ensures r.Some? ==> IsWord(r.value.name) && r.value.attributes == []
  {
    var t := line[SpaceLen(line)..];
    var n := WordLen(t);
    var u := t[n..];
    var c := SpaceLen(u);
    if n > 0 && c < |u| && u[c] == '{' then Some(Entity(t[..n], [])) else None
  }

  /** The line the entity-start pattern describes, piece by piece. */
  predicate EntityStartShape(line: string, name: string, sp0: string, sp1: string, rest: string) {
    AllRegexSpace(sp0) && IsWord(name) && AllRegexSpace(sp1) && line == sp0 + (name + (sp1 + ("{" + rest)))
  }

  /** Every line of the entity-start shape is recognised, with its name. */
  lemma {:induction false} EntityStartComplete(line: string, name: string, sp0: string, sp1: string, rest: string)
    requires EntityStartShape(line, name, sp0, sp1, rest)
    ensures ParseEntityStart(line) == Some(Entity(name, []))
  {
    SpaceLenOf(sp0, name + (sp1 + ("{" + rest)));
    var t := name + (sp1 + ("{" + rest));
    assert line[|sp0|..] == t;
    WordLenOf(name, sp1 + ("{" + rest));
    assert t[..|name|] == name;
    assert t[|name|..] == sp1 + ("{" + rest);
    SpaceLenOf(sp1, "{" + rest);
  }

  /** Every recognised line has the entity-start shape. */
  lemma EntityStartSound(line: string) returns (sp0: string, sp1: string, rest: string)
    requires ParseEntityStart(line).Some?
    ensures EntityStartShape(line, ParseEntityStart(line).value.name, sp0, sp1, rest)
  {
    var a := SpaceLen(line);
    var t := line[a..];
    var n := WordLen(t);
    var u := t[n..];
    var c := SpaceLen(u);
    sp0, sp1, rest := line[..a], u[..c], u[c + 1..];
    SplitAt(u, c);
    ConsAt(u, c);
    assert u[c..] == "{" + rest;
    SplitAt(t, n);
    SplitAt(line, a);
  }

  // ---------------------------------------------------------------------------
  // getMessageType and parseMessage: optional spaces, the sender word, optional
  // spaces, one of four arrows, optional spaces, the receiver word, optional
  // spaces, a colon, optional spaces and the text up to the end of the line.

  /** The alternatives of the arrow group, in the order the regex tries them. */
  const Arrows: seq<string> := ["->", "-->", "->>", "-->>"]

  /** getMessageType: the four arrows and a SolidArrow default; never Note. */
  function GetMessageType(arrow: string): (t: MessageType)
    ensures t != Note
    ensures arrow !in Arrows ==> t == SolidArrow
  {
    if arrow == "->" then SolidArrow
    else if arrow == "-->" then DashedArrow
    else if arrow == "->>" then SolidArrowWithX
    else if arrow == "-->>" then DashedArrowWithX
    else SolidArrow
  }

  /** The arrow that writes each message type, the inverse of GetMessageType. */
  function ArrowOf(t: MessageType): (arrow: string)
    requires t != Note
    ensures arrow in Arrows
  {
    match t
    case SolidArrow => "->"
    case DashedArrow => "-->"
    case SolidArrowWithX => "->>"
    case DashedArrowWithX => "-->>"
  }

  /** GetMessageType and ArrowOf are inverse bijections between the four arrows and the four non-Note types. */
  lemma ArrowRoundTrip(arrow: string, t: MessageType)
    ensures arrow in Arrows ==> ArrowOf(GetMessageType(arrow)) == arrow
    ensures t != Note ==> GetMessageType(ArrowOf(t)) == t
  {
  }

  /**
   * Spaces, the target word, spaces, ':', spaces and the text up to the end
   * of the line, at the start of t: the target and the message text.
   */
  function MessageTail(t: string): (r: Option<(string, string)>)
    ensures r.Some? ==> IsWord(r.value.0) && '\n' !in r.value.1
  {
    var t1 := t[SpaceLen(t)..];
    var n := WordLen(t1);
    if n == 0 then None else AfterTarget(t1[..n], t1[n..])
  }

  /** The part of MessageTail after the target word `to`. */
  function AfterTarget(to: string, t2: string): (r: Option<(string, string)>)
    ensures r.Some? ==> r.value.0 == to && '\n' !in r.value.1
  {
    var g := SpaceLen(t2);
    if !(g < |t2| && t2[g] == ':') then None
    else
      var t3 := t2[g + 1..];
      var t4 := t3[SpaceLen(t3)..];
      Some((to, t4[..LineLen(t4)]))
  }

  /** The arrow alternation: the first alternative after which the rest of the pattern matches. */
  function TryArrows(t: string, from: string, alts: seq<string>): (r: Option<Message>)
    ensures r.Some? ==> r.value.from == from && IsWord(r.value.to) && '\n' !in r.value.text
    ensures r.Some? ==> r.value.msgType != Note
  {
    if alts == [] then None
    else if HasPrefix(t, alts[0]) && MessageTail(t[|alts[0]|..]).Some? then
      var tail := MessageTail(t[|alts[0]|..]).value;
      Some(Message(from, tail.0, tail.1, GetMessageType(alts[0])))
    else TryArrows(t, from, alts[1..])
  }

  /** parseMessage */
  function ParseMessage(line: string): (r: Option<Message>)
    ensures r.Some? ==> IsWord(r.value.from) && IsWord(r.value.to) && '\n' !in r.value.text
    ensures r.Some? ==> r.value.msgType != Note
  {
    var t := line[SpaceLen(line)..];
    var n := WordLen(t);
    if n == 0 then None
    else
      var u := t[n..];
      TryArrows(u[SpaceLen(u)..], t[..n], Arrows)
  }

  /** The text after the arrow: spaces, target, spaces, ':', spaces, message text, rest of input. */
  function MessageTailText(sp2: string, to: string, sp3: string, sp4: string, text: string, rest: string): string {
    sp2 + (to + (sp3 + (":" + (sp4 + (text + rest)))))
  }

  /**
   * The line the message pattern describes: the greedy `\s*` after ':' takes
   * every space, and `.*` stops at the first '\n'.
   */
  predicate MessageShape(line: string, m: Message, sp0: string, sp1: string, arrow: string,
                         sp2: string, sp3: string, sp4: string, rest: string)
  {
    && AllRegexSpace(sp0) && AllRegexSpace(sp1) && AllRegexSpace(sp2) && AllRegexSpace(sp3) && AllRegexSpace(sp4)
    && IsWord(m.from) && IsWord(m.to) && arrow in Arrows && m.msgType == GetMessageType(arrow)
    && '\n' !in m.text && (rest == [] || rest[0] == '\n')
    && (m.text + rest == [] || !IsRegexSpace((m.text + rest)[0]))
    && line == sp0 + (m.from + (sp1 + (arrow + MessageTailText(sp2, m.to, sp3, sp4, m.text, rest))))
  }

  lemma MessageTailOf(sp2: string, to: string, sp3: string, sp4: string, text: string, rest: string)
    requires AllRegexSpace(sp2) && AllRegexSpace(sp3) && AllRegexSpace(sp4) && IsWord(to)
    requires '\n' !in text && (rest == [] || rest[0] == '\n')
    requires text + rest == [] || !IsRegexSpace((text + rest)[0])
    ensures MessageTail(MessageTailText(sp2, to, sp3, sp4, text, rest)) == Some((to, text))
  {
    var t2 := sp3 + (":" + (sp4 + (text + rest)));
    assert t2[0] == ':' || t2[0] == sp3[0];
    MessageTailTarget(sp2, to, t2);
    MessageTailAfterTarget(to, sp3, sp4, text, rest);
  }

  /** Leading spaces and the target word, up to a character that ends the word. */
  lemma MessageTailTarget(sp2: string, to: string, t2: string)
    requires AllRegexSpace(sp2) && IsWord(to) && t2 != [] && !IsWordChar(t2[0])
    ensures MessageTail(sp2 + (to + t2)) == AfterTarget(to, t2)
  {
    var t1 := to + t2;
    SpaceLenOf(sp2, t1);
    assert (sp2 + t1)[|sp2|..] == t1;
    WordLenOf(to, t2);
    assert t1[..|to|] == to && t1[|to|..] == t2;
  }

  /** After the target: spaces, ':', spaces and the text up to the end of the line. */
  lemma MessageTailAfterTarget(to: string, sp3: string, sp4: string, text: string, rest: string)
    requires AllRegexSpace(sp3) && AllRegexSpace(sp4)
    requires '\n' !in text && (rest == [] || rest[0] == '\n')
    requires text + rest == [] || !IsRegexSpace((text + rest)[0])
    ensures AfterTarget(to, sp3 + (":" + (sp4 + (text + rest)))) == Some((to, text))
  {
    var t4 := text + rest;
    var t3 := sp4 + t4;
    SpaceLenOf(sp3, ":" + t3);
    assert (sp3 + (":" + t3))[|sp3|] == ':' && (sp3 + (":" + t3))[|sp3| + 1..] == t3;
    SpaceLenOf(sp4, t4);
    assert t3[|sp4|..] == t4;
    LineLenOf(text, rest);
    assert t4[..|text|] == text;
  }

  /** A tail that starts with neither a space nor a word character fails. */
  lemma MessageTailFails(t: string)
    requires t != [] && !IsRegexSpace(t[0]) && !IsWordChar(t[0])
    ensures MessageTail(t).None?
  {
    assert SpaceLen(t) == 0;
    assert WordLen(t) == 0;
  }

  /** An alternative that does not lead to a match passes control to the next one. */
  lemma TryArrowsSkip(t: string, from: string, alt: string, alts: seq<string>)
    requires alts != [] && alts[0] == alt && (!HasPrefix(t, alt) || MessageTail(t[|alt|..]).None?)
    ensures TryArrows(t, from, alts) == TryArrows(t, from, alts[1..])
  {
  }

  /** An alternative that leads to a match is taken. */
  lemma TryArrowsHit(t: string, arrow: string, tail: string, alts: seq<string>, m: Message)
    requires alts != [] && alts[0] == arrow && t == arrow + tail && m.msgType == GetMessageType(arrow)
    requires MessageTail(tail) == Some((m.to, m.text))
    ensures TryArrows(t, m.from, alts) == Some(m)
  {
    assert t[|arrow|..] == tail;
  }

  /** The tail after a shorter arrow starts with '-' or '>', so the shorter alternative fails. */
  lemma ShorterArrowFails(t: string, k: nat)
    requires k < |t| && (t[k] == '-' || t[k] == '>')
    ensures MessageTail(t[k..]).None?
  {
    assert t[k..][0] == t[k];
    MessageTailFails(t[k..]);
  }

  /**
   * The arrow alternation picks the arrow actually written: a longer arrow is
   * never cut short, because after a shorter alternative the tail would start
   * with '-' or '>', which neither `\s` nor `\w` accepts.
   */
  lemma ArrowAlternation(v: string, arrow: string, tail: string, m: Message)
    requires arrow in Arrows && v == arrow + tail && m.msgType == GetMessageType(arrow)
    requires MessageTail(tail) == Some((m.to, m.text))
    ensures TryArrows(v, m.from, Arrows) == Some(m)
  {
    var a1: seq<string> := ["-->", "->>", "-->>"];
    var a2: seq<string> := ["->>", "-->>"];
    var a3: seq<string> := ["-->>"];
    assert Arrows[1..] == a1 && a1[1..] == a2 && a2[1..] == a3;
    if arrow == "->" {
      TryArrowsHit(v, arrow, tail, Arrows, m);
    } else if arrow == "-->" {
      SecondChar(v, arrow, tail);
      NoPrefixAt(v, "->", 1);
      TryArrowsSkip(v, m.from, "->", Arrows);
      TryArrowsHit(v, arrow, tail, a1, m);
    } else if arrow == "->>" {
      OpenArrowSkips(v, arrow, tail, m.from, a1, a2);
      TryArrowsHit(v, arrow, tail, a2, m);
    } else {
      DashedArrowSkips(v, arrow, tail, m.from, a1, a2, a3);
      TryArrowsHit(v, arrow, tail, a3, m);
    }
  }

  /** A string whose i-th character differs from the prefix's does not start with it. */
  lemma NoPrefixAt(v: string, p: string, i: nat)
    requires i < |p| && i < |v| && v[i] != p[i]
    ensures !HasPrefix(v, p)
  {
    assert !HasPrefix(v, p) by {
      if |p| <= |v| { assert v[..|p|][i] == v[i]; }
    }
  }

  lemma SecondChar(v: string, arrow: string, tail: string)
    requires |arrow| >= 4 || arrow == "-->" || arrow == "->>"
    requires v == arrow + tail
    ensures v[1] == arrow[1] && v[2] == arrow[2]
  {
  }

  /** With `->>` written, `->` and `-->` are tried and fail first. */
  lemma OpenArrowSkips(v: string, arrow: string, tail: string, from: string, a1: seq<string>, a2: seq<string>)
    requires arrow == "->>" && v == arrow + tail
    requires a1 == ["-->", "->>", "-->>"] && a2 == a1[1..]
    ensures TryArrows(v, from, Arrows) == TryArrows(v, from, a2)
  {
    SecondChar(v, arrow, tail);
    ShorterArrowFails(v, 2);
    TryArrowsSkip(v, from, "->", Arrows);
    NoPrefixAt(v, "-->", 1);
    assert Arrows[1..] == a1;
    TryArrowsSkip(v, from, "-->", a1);
  }

  /** With `-->>` written, `->`, `-->` and `->>` are tried and fail first. */
  lemma DashedArrowSkips(v: string, arrow: string, tail: string, from: string,
                         a1: seq<string>, a2: seq<string>, a3: seq<string>)
    requires arrow == "-->>" && v == arrow + tail
    requires a1 == ["-->", "->>", "-->>"] && a2 == a1[1..] && a3 == a2[1..]
    ensures TryArrows(v, from, Arrows) == TryArrows(v, from, a3)
  {
    assert v[1] == '-' && v[3] == '>';
    NoPrefixAt(v, "->", 1);
    TryArrowsSkip(v, from, "->", Arrows);
    ShorterArrowFails(v, 3);
    assert Arrows[1..] == a1;
    TryArrowsSkip(v, from, "-->", a1);
    NoPrefixAt(v, "->>", 1);
    TryArrowsSkip(v, from, "->>", a2);
  }

  /** Every line of the message shape is recognised, with exactly its parts. */
  lemma {:induction false} MessageComplete(line: string, m: Message, sp0: string, sp1: string, arrow: string,
                                           sp2: string, sp3: string, sp4: string, rest: string)
    requires MessageShape(line, m, sp0, sp1, arrow, sp2, sp3, sp4, rest)
    ensures ParseMessage(line) == Some(m)
  {
    var tail := MessageTailText(sp2, m.to, sp3, sp4, m.text, rest);
    var v := arrow + tail;
    var u := sp1 + v;
    var t := m.from + u;
    SpaceLenOf(sp0, t);
    assert line[|sp0|..] == t;
    WordLenOf(m.from, u);
    assert t[..|m.from|] == m.from && t[|m.from|..] == u;
    SpaceLenOf(sp1, v);
    assert u[|sp1|..] == v;
    MessageTailOf(sp2, m.to, sp3, sp4, m.text, rest);
    assert tail != [] && (IsRegexSpace(tail[0]) || IsWordChar(tail[0])) by {
      if sp2 == [] { assert tail[0] == m.to[0]; } else { assert tail[0] == sp2[0]; }
    }
    ArrowAlternation(v, arrow, tail, m);
  }

  /** The alternative TryArrows took: one of the alternatives, a prefix of the text, followed by a matching tail. */
  lemma {:induction false} TryArrowsSound(t: string, from: string, alts: seq<string>) returns (arrow: string)
    requires TryArrows(t, from, alts).Some?
    ensures var m := TryArrows(t, from, alts).value;
      arrow in alts && HasPrefix(t, arrow) && MessageTail(t[|arrow|..]) == Some((m.to, m.text))
      && m.msgType == GetMessageType(arrow)
    decreases |alts|
  {
    if HasPrefix(t, alts[0]) && MessageTail(t[|alts[0]|..]).Some? {
      arrow := alts[0];
    } else {
      arrow := TryArrowsSound(t, from, alts[1..]);
    }
  }

  /**
   * Every recognised message line is a word, spaces, one of the four arrows
   * and a tail of the message pattern: any other arrow is not a message.
   */
  lemma MessageSound(line: string) returns (sp0: string, sp1: string, arrow: string, tail: string)
    requires ParseMessage(line).Some?
    ensures var m := ParseMessage(line).value;
      && AllRegexSpace(sp0) && AllRegexSpace(sp1) && arrow in Arrows
      && line == sp0 + (m.from + (sp1 + (arrow + tail)))
      && m.msgType == GetMessageType(arrow) && MessageTail(tail) == Some((m.to, m.text))
  {
    var a := SpaceLen(line);
    var t := line[a..];
    var n := WordLen(t);
    var u := t[n..];
    var k := SpaceLen(u);
    var v := u[k..];
    arrow := TryArrowsSound(v, t[..n], Arrows);
    sp0, sp1, tail := line[..a], u[..k], v[|arrow|..];
    MessageRecompose(line, t, u, v, a, n, k, |arrow|);
  }

  lemma MessageRecompose(line: string, t: string, u: string, v: string, a: nat, n: nat, k: nat, p: nat)
    requires a <= |line| && t == line[a..] && n <= |t| && u == t[n..] && k <= |u| && v == u[k..] && p <= |v|
    ensures line == line[..a] + (t[..n] + (u[..k] + (v[..p] + v[p..])))
  {
    assert v == v[..p] + v[p..];
    assert u == u[..k] + v;
    assert t == t[..n] + u;
    assert line == line[..a] + t;
  }

  /** `A-?B: x` is not a message: no alternative of the arrow group matches. */
  lemma UnknownArrowRejected()
    ensures ParseMessage("A-?B: x").None?
  {
    assert "A-?B: x" == "A" + "-?B: x";
    BadArrowRejected("A", "-?B: x");
  }

  /** A word followed by '-' and a character that continues no arrow is not a message. */
  lemma BadArrowRejected(from: string, v: string)
    requires IsWord(from) && |v| >= 2 && v[0] == '-' && v[1] != '-' && v[1] != '>'
    ensures ParseMessage(from + v).None?
  {
    var line := from + v;
    assert line[0] == from[0];
    assert SpaceLen(line) == 0;
    WordLenOf(from, v);
    assert line[..|from|] == from && line[|from|..] == v;
    assert SpaceLen(v) == 0;
    NoArrowMatches(v, from);
  }

  /** After a '-' that is followed by neither '-' nor '>', no alternative of the arrow group matches. */
  lemma NoArrowMatches(v: string, from: string)
    requires |v| >= 2 && v[1] != '-' && v[1] != '>'
    ensures TryArrows(v, from, Arrows).None?
  {
    var a1: seq<string> := ["-->", "->>", "-->>"];
    var a2: seq<string> := ["->>", "-->>"];
    var a3: seq<string> := ["-->>"];
    assert Arrows[1..] == a1 && a1[1..] == a2 && a2[1..] == a3 && a3[1..] == [];
    NoPrefixAt(v, "->", 1);
    NoPrefixAt(v, "-->", 1);
    NoPrefixAt(v, "->>", 1);
    NoPrefixAt(v, "-->>", 1);
    TryArrowsSkip(v, from, "->", Arrows);
    TryArrowsSkip(v, from, "-->", a1);
    TryArrowsSkip(v, from, "->>", a2);
    TryArrowsSkip(v, from, "-->>", a3);
  }

  // ---------------------------------------------------------------------------
  // parseParticipant: optional spaces, the keyword participant, spaces and a
  // word (the name), optionally followed by spaces, the keyword as, spaces and
  // an alias of one or more characters up to the end of the line.

  /**
   * Spaces and then one or more characters other than '\n', at the start of x. The greedy spaces are kept when a character
   * other than '\n' follows them; when they run to the end of x the engine
   * gives spaces back until `.+` can take one.
   */
  function AliasText(x: string): (r: Option<string>)
    ensures r.Some? ==> r.value != [] && '\n' !in r.value
  {
    var k := SpaceLen(x);
    if k == 0 then None
    else if k < |x| then Some(x[k..][..LineLen(x[k..])])
    else GiveBack(x, k - 1)
  }

  /** The last j in 1..i with x[j] != '\n': `\s+` keeps x[..j] and `.+` takes x[j]. */
  function GiveBack(x: string, i: nat): (r: Option<string>)
    requires i < |x|
    ensures r.Some? ==> |r.value| == 1 && r.value[0] != '\n'
    decreases i
  {
    if i == 0 then None
    else if x[i] != '\n' then Some([x[i]])
    else GiveBack(x, i - 1)
  }

  /** The optional group `(?:\s+as\s+(.+))?` after the name: the alias, if the group matches. */
  function AliasGroup(w: string): (r: Option<string>)
    ensures r.Some? ==> r.value != [] && '\n' !in r.value
  {
    var k := SpaceLen(w);
    if k == 0 || !HasPrefix(w[k..], "as") then None
    else AliasText(w[k..][2..])
  }

  /** parseParticipant: the alias is the name unless the `as` group supplies one. */
  function ParseParticipant(line: string): (r: Option<Participant>)
    ensures r.Some? ==> IsWord(r.value.name) && r.value.alias != []
  {
    var t := line[SpaceLen(line)..];
    if !HasPrefix(t, "participant") then None
    else
      var u := t[11..];
      var k := SpaceLen(u);
      var v := u[k..];
      var n := WordLen(v);
      if k == 0 || n == 0 then None
      else
        match AliasGroup(v[n..])
        case Some(alias) => Some(Participant(v[..n], alias))
        case None => Some(Participant(v[..n], v[..n]))
  }

  /** Scans the keyword, the spaces and the name of a participant line. */
  lemma ParticipantHead(line: string, sp0: string, sp1: string, name: string, rest: string)
    requires AllRegexSpace(sp0) && AllRegexSpace(sp1) && sp1 != [] && IsWord(name)
    requires rest == [] || !IsWordChar(rest[0])
    requires line == sp0 + ("participant" + (sp1 + (name + rest)))
    ensures ParseParticipant(line) ==
      Some(match AliasGroup(rest) case Some(alias) => Participant(name, alias) case None => Participant(name, name))
  {
    var v := name + rest;
    var u := sp1 + v;
    var t := "participant" + u;
    SpaceLenOf(sp0, t);
    assert line[|sp0|..] == t && HasPrefix(t, "participant") && t[11..] == u;
    SpaceLenOf(sp1, v);
    assert u[|sp1|..] == v;
    WordLenOf(name, rest);
    assert v[..|name|] == name && v[|name|..] == rest;
  }

  /** `participant NAME` with nothing after the name: the alias is the name. */
  lemma ParticipantPlainComplete(line: string, sp0: string, sp1: string, name: string, rest: string)
    requires AllRegexSpace(sp0) && AllRegexSpace(sp1) && sp1 != [] && IsWord(name)
    requires rest == [] || (!IsWordChar(rest[0]) && !IsRegexSpace(rest[0]))
    requires line == sp0 + ("participant" + (sp1 + (name + rest)))
    ensures ParseParticipant(line) == Some(Participant(name, name))
  {
    ParticipantHead(line, sp0, sp1, name, rest);
    assert rest == [] || SpaceLen(rest) == 0;
  }

  /** `participant NAME as ALIAS`: the alias is the rest of the line after `as` and its spaces. */
  lemma ParticipantAliasComplete(line: string, sp0: string, sp1: string, name: string,
                                 sp2: string, sp3: string, alias: string, rest: string)
    requires AllRegexSpace(sp0) && AllRegexSpace(sp1) && sp1 != [] && IsWord(name)
    requires AllRegexSpace(sp2) && sp2 != [] && AllRegexSpace(sp3) && sp3 != []
    requires alias != [] && '\n' !in alias && !IsRegexSpace(alias[0]) && (rest == [] || rest[0] == '\n')
    requires line == sp0 + ("participant" + (sp1 + (name + (sp2 + ("as" + (sp3 + (alias + rest)))))))
    ensures ParseParticipant(line) == Some(Participant(name, alias))
  {
    var w := sp2 + ("as" + (sp3 + (alias + rest)));
    assert w[0] == sp2[0];
    ParticipantHead(line, sp0, sp1, name, w);
    AliasGroupOf(sp2, sp3, alias, rest);
  }

  lemma AliasGroupOf(sp2: string, sp3: string, alias: string, rest: string)
    requires AllRegexSpace(sp2) && sp2 != [] && AllRegexSpace(sp3) && sp3 != []
    requires alias != [] && '\n' !in alias && !IsRegexSpace(alias[0]) && (rest == [] || rest[0] == '\n')
    ensures AliasGroup(sp2 + ("as" + (sp3 + (alias + rest)))) == Some(alias)
  {
    var x := sp3 + (alias + rest);
    var w := sp2 + ("as" + x);
    SpaceLenOf(sp2, "as" + x);
    assert w[|sp2|..] == "as" + x && ("as" + x)[2..] == x;
    SpaceLenOf(sp3, alias + rest);
    assert x[|sp3|..] == alias + rest;
    LineLenOf(alias, rest);
    assert (alias + rest)[..|alias|] == alias;
  }

  /** Every recognised participant line starts with the keyword, spaces and the name. */
  lemma ParticipantSound(line: string) returns (sp0: string, sp1: string, rest: string)
    requires ParseParticipant(line).Some?
    ensures var p := ParseParticipant(line).value;
      && AllRegexSpace(sp0) && AllRegexSpace(sp1) && sp1 != []
      && line == sp0 + ("participant" + (sp1 + (p.name + rest)))
      && (rest == [] || !IsWordChar(rest[0]))
      && (p.alias == p.name || AliasGroup(rest) == Some(p.alias))
  {
    var a := SpaceLen(line);
    var t := line[a..];
    var u := t[11..];
    var k := SpaceLen(u);
    var v := u[k..];
    var n := WordLen(v);
    sp0, sp1, rest := line[..a], u[..k], v[n..];
    ParticipantRecompose(line, t, u, v, a, k, n);
    ParticipantHead(line, sp0, sp1, v[..n], rest);
  }

  lemma ParticipantRecompose(line: string, t: string, u: string, v: string, a: nat, k: nat, n: nat)
    requires a <= |line| && t == line[a..] && HasPrefix(t, "participant") && u == t[11..]
    requires k <= |u| && v == u[k..] && n <= |v|
    ensures line == line[..a] + ("participant" + (u[..k] + (v[..n] + v[n..])))
  {
    assert v == v[..n] + v[n..];
    assert u == u[..k] + v;
    assert t == "participant" + u;
    assert line == line[..a] + t;
  }

  // ---------------------------------------------------------------------------
  // parseAttribute: optional spaces, a type word, spaces, a name word, then any
  // number of constraint groups, each spaces followed by a constraint keyword.

  /** The alternatives of the constraint group, in the order the regex tries them. */
  const ConstraintKeywords: seq<string> := ["PK", "FK", "UK", "NOT NULL"]

  /**
   * The repeated constraint group at the start of s: a
   * repeated capture keeps its last repetition, so the result is the keyword
   * of the last repetition, or `last` when the group does not repeat.
   */
  function LastConstraint(s: string, last: string): (c: string)
    ensures c == last || c in ConstraintKeywords
    decreases |s|
  {
    var k := SpaceLen(s);
    var w := s[k..];
    if k == 0 then last
    else if HasPrefix(w, "PK") then LastConstraint(w[2..], "PK")
    else if HasPrefix(w, "FK") then LastConstraint(w[2..], "FK")
    else if HasPrefix(w, "UK") then LastConstraint(w[2..], "UK")
    else if HasPrefix(w, "NOT NULL") then LastConstraint(w[8..], "NOT NULL")
    else last
  }

  /** At most one of the four constraint flags is set. */
  predicate AtMostOneFlag(a: Attribute) {
    (if a.isPK then 1 else 0) + (if a.isFK then 1 else 0) + (if a.isUnique then 1 else 0) + (if a.isNotNull then 1 else 0) <= 1
  }

  /** An attribute whose flags are those the captured keyword names (the empty capture names none). */
  predicate FlagsNamedBy(a: Attribute, keyword: string) {
    a.isPK == (keyword == "PK") && a.isFK == (keyword == "FK")
    && a.isUnique == (keyword == "UK") && a.isNotNull == (keyword == "NOT NULL")
  }

  /** A string lacking one of t's characters does not contain t. */
  lemma NotContainsChar(s: string, t: string, j: nat)
    requires j < |t| && t[j] !in s
    ensures !Contains(s, t)
  {
    if Contains(s, t) {
      var i := ContainsWitness(s, t);
    }
  }

  lemma NotNullFlags()
    ensures !Contains("NOT NULL", "PK") && !Contains("NOT NULL", "FK") && !Contains("NOT NULL", "UK")
    ensures Contains("NOT NULL", "NOT NULL")
  {
    var s := "NOT NULL";
    SelfContains(s);
    assert forall i :: 0 <= i < |s| ==> s[i] != 'P' && s[i] != 'F' && s[i] != 'K';
    NotContainsChar(s, "PK", 0);
    NotContainsChar(s, "FK", 0);
    NotContainsChar(s, "UK", 1);
  }

  /** ToUpper leaves a string without lower-case ASCII letters unchanged. */
  lemma UpperFixed(s: string)
    requires forall i :: 0 <= i < |s| ==> !('a' <= s[i] <= 'z')
    ensures ToUpper(s) == s
  {
  }

  /**
   * The flag tests after strings.ToUpper: each capture is already upper case,
   * and each keyword is contained only in itself.
   */
  lemma ConstraintFlags(c: string)
    requires c == "" || c in ConstraintKeywords
    ensures ToUpper(c) == c
    ensures Contains(c, "PK") == (c == "PK") && Contains(c, "FK") == (c == "FK")
    ensures Contains(c, "UK") == (c == "UK") && Contains(c, "NOT NULL") == (c == "NOT NULL")
  {
    ConstraintUpper(c);
    ConstraintContains(c);
  }

  lemma ConstraintUpper(c: string)
    requires c == "" || c in ConstraintKeywords
    ensures ToUpper(c) == c
  {
    assert forall i :: 0 <= i < |c| ==> 'A' <= c[i] <= 'Z' || c[i] == ' ';
    UpperFixed(c);
  }

  lemma ConstraintContains(c: string)
    requires c == "" || c in ConstraintKeywords
    ensures Contains(c, "PK") == (c == "PK") && Contains(c, "FK") == (c == "FK")
    ensures Contains(c, "UK") == (c == "UK") && Contains(c, "NOT NULL") == (c == "NOT NULL")
  {
    if c == "" {
      EmptyFlags();
      assert |c| != 2 && |c| != 8;
    } else if c == "PK" {
      PKFlags();
      assert c[0] != 'F' && c[0] != 'U' && |c| != 8;
    } else if c == "FK" {
      FKFlags();
      assert c[0] != 'P' && c[0] != 'U' && |c| != 8;
    } else if c == "UK" {
      UKFlags();
      assert c[0] != 'P' && c[0] != 'F' && |c| != 8;
    } else {
      assert c == "NOT NULL";
      NotNullFlags();
      assert |c| != 2;
    }
  }

  lemma EmptyFlags()
    ensures !Contains("", "PK") && !Contains("", "FK") && !Contains("", "UK") && !Contains("", "NOT NULL")
  {
  }

  lemma PKFlags()
    ensures Contains("PK", "PK") && !Contains("PK", "FK") && !Contains("PK", "UK") && !Contains("PK", "NOT NULL")
  {
    SelfContains("PK");
    NotContainsChar("PK", "FK", 0);
    NotContainsChar("PK", "UK", 0);
    NotContainsChar("PK", "NOT NULL", 0);
  }

  lemma FKFlags()
    ensures !Contains("FK", "PK") && Contains("FK", "FK") && !Contains("FK", "UK") && !Contains("FK", "NOT NULL")
  {
    SelfContains("FK");
    NotContainsChar("FK", "PK", 0);
    NotContainsChar("FK", "UK", 0);
    NotContainsChar("FK", "NOT NULL", 0);
  }

  lemma UKFlags()
    ensures !Contains("UK", "PK") && !Contains("UK", "FK") && Contains("UK", "UK") && !Contains("UK", "NOT NULL")
  {
    SelfContains("UK");
    NotContainsChar("UK", "PK", 0);
    NotContainsChar("UK", "FK", 0);
    NotContainsChar("UK", "NOT NULL", 0);
  }

  lemma SelfContains(c: string)
    ensures Contains(c, c)
  {
    ContainsAt(c, c, 0);
    assert c[0..|c|] == c;
  }

  /** parseAttribute: the first word is the type, the second the name, and the flags come from the last constraint. */
  function ParseAttribute(line: string): (r: Option<Attribute>)
    ensures r.Some? ==> IsWord(r.value.name) && IsWord(r.value.attrType) && AtMostOneFlag(r.value)
  {
    var t := line[SpaceLen(line)..];
    var n := WordLen(t);
    var u := t[n..];
    var k := SpaceLen(u);
    var v := u[k..];
    var m := WordLen(v);
    if n == 0 || k == 0 || m == 0 then None
    else
      var c := LastConstraint(v[m..], "");
      var constraints := ToUpper(c);
      ConstraintFlags(c);
      Some(Attribute(v[..m], t[..n], Contains(constraints, "PK"), Contains(constraints, "FK"),
                     Contains(constraints, "UK"), Contains(constraints, "NOT NULL")))
  }

  /** Constraint repetitions written out: each is spaces then a keyword. */
  function ConstraintText(cs: seq<(string, string)>): string {
    if cs == [] then [] else cs[0].0 + (cs[0].1 + ConstraintText(cs[1..]))
  }

  predicate WellFormedConstraints(cs: seq<(string, string)>) {
    forall i :: 0 <= i < |cs| ==> cs[i].0 != [] && AllRegexSpace(cs[i].0) && cs[i].1 in ConstraintKeywords
  }

  /** The keyword the last repetition captures, or "" when there is none. */
  function LastKeyword(cs: seq<(string, string)>): string {
    if cs == [] then "" else cs[|cs| - 1].1
  }

  /** One repetition: the greedy spaces, then the one alternative that matches. */
  lemma ConstraintStep(sp: string, kw: string, more: string, last: string)
    requires sp != [] && AllRegexSpace(sp) && kw in ConstraintKeywords
    ensures LastConstraint(sp + (kw + more), last) == LastConstraint(more, kw)
  {
    var w := kw + more;
    SpaceLenOf(sp, w);
    assert (sp + w)[|sp|..] == w;
    assert w[..|kw|] == kw && w[|kw|..] == more;
    if kw == "PK" {
    } else if kw == "FK" {
      assert !HasPrefix(w, "PK") by { assert w[0] == 'F'; }
    } else if kw == "UK" {
      assert !HasPrefix(w, "PK") && !HasPrefix(w, "FK") by { assert w[0] == 'U'; }
    } else {
      assert !HasPrefix(w, "PK") && !HasPrefix(w, "FK") && !HasPrefix(w, "UK") by { assert w[0] == 'N'; }
    }
  }

  /** The repeated group captures the keyword of its last repetition. */
  lemma {:induction false} LastConstraintOf(cs: seq<(string, string)>, rest: string, last: string)
    requires WellFormedConstraints(cs)
    requires rest == [] || !IsRegexSpace(rest[0])
    ensures LastConstraint(ConstraintText(cs) + rest, last) == (if cs == [] then last else LastKeyword(cs))
    decreases |cs|
  {
    if cs == [] {
      assert ConstraintText(cs) + rest == rest;
      assert SpaceLen(rest) == 0;
    } else {
      assert ConstraintText(cs) + rest == cs[0].0 + (cs[0].1 + (ConstraintText(cs[1..]) + rest));
      ConstraintStep(cs[0].0, cs[0].1, ConstraintText(cs[1..]) + rest, last);
      LastConstraintOf(cs[1..], rest, cs[0].1);
    }
  }

  /** What follows the constraints starts with neither a word character nor (when there are constraints) anything but a space. */
  lemma ConstraintTextStart(cs: seq<(string, string)>, rest: string)
    requires WellFormedConstraints(cs)
    requires rest == [] || (!IsRegexSpace(rest[0]) && !IsWordChar(rest[0]))
    ensures ConstraintText(cs) + rest == [] || !IsWordChar((ConstraintText(cs) + rest)[0])
  {
    if cs != [] {
      assert (ConstraintText(cs) + rest)[0] == cs[0].0[0];
    } else {
      assert ConstraintText(cs) + rest == rest;
    }
  }

  /** `TYPE NAME` followed by any number of constraints: the flags are those of the last one. */
  lemma AttributeComplete(line: string, a: Attribute, sp0: string, sp1: string, cs: seq<(string, string)>, rest: string)
    requires AllRegexSpace(sp0) && AllRegexSpace(sp1) && sp1 != [] && IsWord(a.attrType) && IsWord(a.name)
    requires WellFormedConstraints(cs) && FlagsNamedBy(a, LastKeyword(cs))
    requires rest == [] || (!IsRegexSpace(rest[0]) && !IsWordChar(rest[0]))
    requires line == sp0 + (a.attrType + (sp1 + (a.name + (ConstraintText(cs) + rest))))
    ensures ParseAttribute(line) == Some(a)
  {
    ConstraintTextStart(cs, rest);
    AttributeHead(line, sp0, a.attrType, sp1, a.name, ConstraintText(cs) + rest);
    LastConstraintOf(cs, rest, "");
  }

  /** Scans the spaces, the type, the spaces and the name of an attribute line. */
  lemma AttributeHead(line: string, sp0: string, attrType: string, sp1: string, name: string, x: string)
    requires AllRegexSpace(sp0) && AllRegexSpace(sp1) && sp1 != [] && IsWord(attrType) && IsWord(name)
    requires x == [] || !IsWordChar(x[0])
    requires line == sp0 + (attrType + (sp1 + (name + x)))
    ensures ParseAttribute(line).Some?
    ensures var a := ParseAttribute(line).value;
      a.attrType == attrType && a.name == name && FlagsNamedBy(a, LastConstraint(x, ""))
  {
    var v := name + x;
    var u := sp1 + v;
    var t := attrType + u;
    SpaceLenOf(sp0, t);
    assert line[|sp0|..] == t;
    WordLenOf(attrType, u);
    assert t[..|attrType|] == attrType && t[|attrType|..] == u;
    SpaceLenOf(sp1, v);
    assert u[|sp1|..] == v;
    WordLenOf(name, x);
    assert v[..|name|] == name && v[|name|..] == x;
    ConstraintFlags(LastConstraint(x, ""));
  }

  /** Every recognised attribute line starts with two words, and the flags are named by the captured keyword. */
  lemma AttributeSound(line: string) returns (sp0: string, sp1: string, rest: string)
    requires ParseAttribute(line).Some?
    ensures var a := ParseAttribute(line).value;
      && AllRegexSpace(sp0) && AllRegexSpace(sp1) && sp1 != []
      && line == sp0 + (a.attrType + (sp1 + (a.name + rest)))
      && FlagsNamedBy(a, LastConstraint(rest, ""))
  {
    var p := SpaceLen(line);
    var t := line[p..];
    var n := WordLen(t);
    var u := t[n..];
    var k := SpaceLen(u);
    var v := u[k..];
    var m := WordLen(v);
    sp0, sp1, rest := line[..p], u[..k], v[m..];
    AttributeRecompose(line, t, u, v, p, n, k, m);
    ConstraintFlags(LastConstraint(rest, ""));
  }

  lemma AttributeRecompose(line: string, t: string, u: string, v: string, p: nat, n: nat, k: nat, m: nat)
    requires p <= |line| && t == line[p..] && n <= |t| && u == t[n..] && k <= |u| && v == u[k..] && m <= |v|
    ensures line == line[..p] + (t[..n] + (u[..k] + (v[..m] + v[m..])))
  {
    assert v == v[..m] + v[m..];
    assert u == u[..k] + v;
    assert t == t[..n] + u;
    assert line == line[..p] + t;
  }

  // ---------------------------------------------------------------------------
  // parseRelationshipSymbol and parseRelationship

  /** The cardinalities each of the four cardinality-based types stands for; the other types have none. */
  function Cardinalities(t: RelationshipType): (r: Option<(string, string)>)
    ensures r.Some? <==> t !in {Identifying, NonIdentifying}
  {
    match t
    case OneToOne => Some(("1", "1"))
    case OneToMany => Some(("1", "M"))
    case ManyToOne => Some(("M", "1"))
    case ManyToMany => Some(("M", "M"))
    case _ => None
  }

  /**
   * parseRelationshipSymbol: a '{' makes the target side many and a '}' the
   * source side; the type is the one whose cardinalities these are.
   */
  function ParseRelationshipSymbol(symbol: string): (r: (RelationshipType, string, string))
    ensures r.1 == (if '}' in symbol then "M" else "1")
    ensures r.2 == (if '{' in symbol then "M" else "1")
    ensures Cardinalities(r.0) == Some((r.1, r.2))
  {
    // strings.Contains with a one-character needle is membership (ContainsChar)
    var toCard := if '{' in symbol then "M" else "1";
    var fromCard := if '}' in symbol then "M" else "1";
    var relType :=
      if fromCard == "1" && toCard == "1" then OneToOne
      else if fromCard == "1" && toCard == "M" then OneToMany
      else if fromCard == "M" && toCard == "1" then ManyToOne
      else if fromCard == "M" && toCard == "M" then ManyToMany
      else OneToOne;
    (relType, fromCard, toCard)
  }

  /** The four symbols of crow's-foot notation the source names get their intended types. */
  lemma RelationshipSymbolExamples()
    ensures ParseRelationshipSymbol("||--||").0 == OneToOne
    ensures ParseRelationshipSymbol("||--o{").0 == OneToMany
    ensures ParseRelationshipSymbol("}o--||").0 == ManyToOne
    ensures ParseRelationshipSymbol("}o--o{").0 == ManyToMany
  {
    assert ParseRelationshipSymbol("||--||").0 == OneToOne by {
      var a := "||--||";
      assert '{' !in a && '}' !in a;
    }
    assert ParseRelationshipSymbol("||--o{").0 == OneToMany by {
      var b := "||--o{";
      assert b[5] == '{' && '}' !in b;
    }
    assert ParseRelationshipSymbol("}o--||").0 == ManyToOne by {
      var c := "}o--||";
      assert c[0] == '}' && '{' !in c;
    }
    assert ParseRelationshipSymbol("}o--o{").0 == ManyToMany by {
      var d := "}o--o{";
      assert d[0] == '}' && d[5] == '{';
    }
  }

  /**
   * parseRelationship: the text before the first ':' must hold at least three
   * fields; the first is the source, the last the target and the ones between,
   * joined by single spaces, the symbol. The label is the trimmed label between
   * the first and the second ':'.
   */
  function ParseRelationship(line: string): (r: Option<Relationship>)
    ensures r.Some? ==> Contains(line, "--") && ':' in line
    ensures r.Some? ==> r.value.from != [] && NoSpace(r.value.from) && r.value.to != [] && NoSpace(r.value.to)
    ensures r.Some? ==> Cardinalities(r.value.relType) == Some((r.value.fromCardinality, r.value.toCardinality))
  {
    if !Contains(line, "--") || ':' !in line then None
    else
      var parts := SplitOn(line, ':');
      if |parts| < 2 then None
      else
        var leftPart := TrimSpace(parts[0]);
        var labelText := TrimSpace(parts[1]);
        var words := Fields(leftPart);
        if |words| < 3 then None
        else
          Some(RelationshipOf(words, labelText))
  }

  /** The label of a parsed relationship has no space at either end. */
  lemma RelationshipLabelTrimmed(line: string)
    ensures ParseRelationship(line).Some? ==> IsTrimmed(ParseRelationship(line).value.labelText)
  {
    var parts := SplitOn(line, ':');
    if |parts| >= 2 {
      TrimSpaceTrimmed(parts[1]);
    }
  }

  /** The relationship three or more fields and a label describe. */
  function RelationshipOf(words: seq<string>, labelText: string): (r: Relationship)
    requires |words| >= 3
    ensures r.from == words[0] && r.to == words[|words| - 1] && r.labelText == labelText
    ensures (r.relType, r.fromCardinality, r.toCardinality) == ParseRelationshipSymbol(SymbolText(words))
  {
    var symbol := ParseRelationshipSymbol(SymbolText(words));
    Relationship(words[0], words[|words| - 1], symbol.0, symbol.1, symbol.2, labelText)
  }

  /** The fields between the first and the last, joined by single spaces. */
  function SymbolText(words: seq<string>): string
    requires |words| >= 2
  {
    Join(words[1..|words| - 1], " ")
  }

  /** The left part of a relationship line: its fields joined by single spaces. */
  function RelationshipLeft(from: string, symbolWords: seq<string>, to: string): string {
    Join([from] + symbolWords + [to], " ")
  }

  predicate IsField(w: string) {
    w != [] && NoSpace(w) && ':' !in w
  }

  lemma RelationshipLeftFacts(from: string, symbolWords: seq<string>, to: string)
    requires IsField(from) && IsField(to) && forall i :: 0 <= i < |symbolWords| ==> IsField(symbolWords[i])
    requires |symbolWords| >= 1 && Contains(Join(symbolWords, " "), "--")
    ensures var left := RelationshipLeft(from, symbolWords, to);
      IsTrimmed(left) && ':' !in left && Contains(left, "--")
      && Fields(left) == [from] + symbolWords + [to]
  {
    var ws := [from] + symbolWords + [to];
    forall i | 0 <= i < |ws| ensures IsField(ws[i]) {
      if 0 < i < |ws| - 1 { assert ws[i] == symbolWords[i - 1]; }
    }
    LeftEnds(ws);
    FieldsJoin(ws);
    LeftContainsDash(from, symbolWords, to);
  }

  lemma LeftEnds(ws: seq<string>)
    requires |ws| >= 1 && forall i :: 0 <= i < |ws| ==> IsField(ws[i])
    ensures IsTrimmed(Join(ws, " ")) && ':' !in Join(ws, " ")
  {
    JoinEnds(ws, " ");
    JoinExcludes(ws, " ", ':');
  }

  lemma LeftContainsDash(from: string, symbolWords: seq<string>, to: string)
    requires |symbolWords| >= 1 && Contains(Join(symbolWords, " "), "--")
    ensures Contains(RelationshipLeft(from, symbolWords, to), "--")
  {
    LeftAround(from, symbolWords, to);
    ContainsInside(from + " ", Join(symbolWords, " "), " " + to, "--");
  }

  /** The left part is the source, the joined symbol and the target, separated by single spaces. */
  lemma LeftAround(from: string, symbolWords: seq<string>, to: string)
    requires |symbolWords| >= 1
    ensures RelationshipLeft(from, symbolWords, to) == (from + " ") + Join(symbolWords, " ") + (" " + to)
  {
    AppendAssoc([from], symbolWords, [to]);
    JoinCons(from, symbolWords + [to], " ");
    JoinSnoc(symbolWords, to, " ");
    Regroup(from, " ", Join(symbolWords, " "), " ", to);
  }

  /**
   * A relationship line: the fields, spaces, ':', the label between spaces,
   * and then nothing or a second ':' with anything after it, which the label
   * does not reach.
   */
  lemma RelationshipComplete(from: string, symbolWords: seq<string>, to: string,
                             sp0: string, sp1: string, labelText: string, sp2: string, tail: string)
    requires IsField(from) && IsField(to) && forall i :: 0 <= i < |symbolWords| ==> IsField(symbolWords[i])
    requires |symbolWords| >= 1 && Contains(Join(symbolWords, " "), "--")
    requires AllSpace(sp0) && AllSpace(sp1) && AllSpace(sp2)
    requires IsTrimmed(labelText) && ':' !in labelText
    requires tail == [] || tail[0] == ':'
    ensures var symbol := ParseRelationshipSymbol(Join(symbolWords, " "));
      ParseRelationship(RelationshipLeft(from, symbolWords, to) + sp0 + ":" + (sp1 + labelText + sp2) + tail)
      == Some(Relationship(from, to, symbol.0, symbol.1, symbol.2, labelText))
  {
    RelationshipLeftFacts(from, symbolWords, to);
    var ws := [from] + symbolWords + [to];
    assert SymbolText(ws) == Join(symbolWords, " ") by {
      assert ws[1..|ws| - 1] == symbolWords;
    }
    RelationshipOfLeft(RelationshipLeft(from, symbolWords, to), sp0, sp1, labelText, sp2, tail);
  }

  /** The same, for any trimmed, colon-free left part holding "--" and three fields. */
  lemma RelationshipOfLeft(left: string, sp0: string, sp1: string, labelText: string, sp2: string, tail: string)
    requires IsTrimmed(left) && ':' !in left && Contains(left, "--") && |Fields(left)| >= 3
    requires AllSpace(sp0) && AllSpace(sp1) && AllSpace(sp2)
    requires IsTrimmed(labelText) && ':' !in labelText
    requires tail == [] || tail[0] == ':'
    ensures ParseRelationship(left + sp0 + ":" + (sp1 + labelText + sp2) + tail)
      == Some(RelationshipOf(Fields(left), labelText))
  {
    var first, second := left + sp0, sp1 + labelText + sp2;
    var line := first + ":" + second + tail;
    RelationshipLineParts(left, sp0, sp1, labelText, sp2, tail);
    TrimSpaceOfPadded([], left, sp0);
    assert [] + left == left;
    TrimSpaceOfPadded(sp1, labelText, sp2);
    ParseRelationshipSteps(line);
  }

  /** The checks ParseRelationship makes, and the pieces Split gives, on such a line. */
  lemma RelationshipLineParts(left: string, sp0: string, sp1: string, labelText: string, sp2: string, tail: string)
    requires ':' !in left && Contains(left, "--")
    requires AllSpace(sp0) && AllSpace(sp1) && AllSpace(sp2) && ':' !in labelText
    requires tail == [] || tail[0] == ':'
    ensures var line := left + sp0 + ":" + (sp1 + labelText + sp2) + tail;
      var parts := SplitOn(line, ':');
      Contains(line, "--") && ':' in line && |parts| >= 2
      && parts[0] == left + sp0 && parts[1] == sp1 + labelText + sp2
  {
    var second := sp1 + labelText + sp2;
    SpacesColonFree(sp0);
    SpacesColonFree(sp1);
    SpacesColonFree(sp2);
    ContainsExtended(left, sp0 + ":" + second + tail, "--");
    assert left + (sp0 + ":" + second + tail) == left + sp0 + ":" + second + tail;
    SplitAtColons(left + sp0, second, tail);
  }

  lemma SpacesColonFree(sp: string)
    requires AllSpace(sp)
    ensures ':' !in sp
  {
    assert !IsSpace(':');
  }

  lemma ContainsExtended(a: string, b: string, t: string)
    requires Contains(a, t)
    ensures Contains(a + b, t)
  {
    ContainsInside([], a, b, t);
    assert [] + a + b == a + b;
  }

  /** ParseRelationship on a line that passes its three checks. */
  lemma ParseRelationshipSteps(line: string)
    requires Contains(line, "--") && ':' in line
    requires var parts := SplitOn(line, ':'); |parts| >= 2 && |Fields(TrimSpace(parts[0]))| >= 3
    ensures var parts := SplitOn(line, ':');
      ParseRelationship(line) == Some(RelationshipOf(Fields(TrimSpace(parts[0])), TrimSpace(parts[1])))
  {
  }

  /**
   * A line is a relationship exactly when it holds "--" and a ':' and the text
   * before the first ':' has at least three fields.
   */
  lemma RelationshipConditions(line: string)
    ensures ParseRelationship(line).Some?
      <==> Contains(line, "--") && ':' in line && |Fields(TrimSpace(SplitOn(line, ':')[0]))| >= 3
  {
    if ':' in line {
      SplitOnMany(line, ':');
    }
  }

  /** Split on ':' of `a:b` followed by nothing or by another ':' piece. */
  lemma SplitAtColons(a: string, b: string, tail: string)
    requires ':' !in a && ':' !in b && (tail == [] || tail[0] == ':')
    ensures var parts := SplitOn(a + ":" + b + tail, ':');
      ':' in a + ":" + b + tail && |parts| >= 2 && parts[0] == a && parts[1] == b
  {
    var line := a + ":" + b + tail;
    assert line == a + [':'] + (b + tail);
    assert line[|a|] == ':';
    SplitOnCons(a, ':', b + tail);
    SplitOnHead(b, ':', tail);
  }
}
