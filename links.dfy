/** The link parser (`parse_telegram_link`) and the chat-id guard built on it
    (`get_chat_id_from_link`). Everything here is pure. */
module Links {
  import opened Common

  // ---------------------------------------------------------------------------
  // Character classes and digit strings

  /** The two regular-expression classes the patterns use, `\d` and `\w`, on ASCII. */
  datatype CharClass = Digit | Word

  predicate IsDigit(c: char) { '0' <= c <= '9' }

  predicate IsWordChar(c: char) {
    IsDigit(c) || 'a' <= c <= 'z' || 'A' <= c <= 'Z' || c == '_'
  }

  predicate InClass(k: CharClass, c: char) {
    match k
    case Digit => IsDigit(c)
    case Word => IsWordChar(c)
  }

  predicate AllIn(k: CharClass, s: string) {
    forall i :: 0 <= i < |s| ==> InClass(k, s[i])
  }

  function Pow10(n: nat): (r: nat)
    ensures r >= 1
  {
    if n == 0 then 1 else 10 * Pow10(n - 1)
  }

  function DigitValue(c: char): nat
    requires IsDigit(c)
  {
    c as int - '0' as int
  }

  /** Python's `int(...)` of a string of decimal digits. */
  function DigitsValue(d: string): nat
    requires AllIn(Digit, d)
    decreases |d|
  {
    if d == [] then 0 else DigitsValue(d[..|d| - 1]) * 10 + DigitValue(d[|d| - 1])
  }

  /** The value of a digit string is zero exactly when every digit is '0': a link
      such as `t.me/news/000` names message 0, which the callers treat as missing. */
  lemma {:induction false} ZeroIdOnlyFromZeros(d: string)
    requires AllIn(Digit, d)
    ensures DigitsValue(d) == 0 <==> forall i :: 0 <= i < |d| ==> d[i] == '0'
  {
    if d != [] {
      var init := d[..|d| - 1];
      assert AllIn(Digit, init);
      ZeroIdOnlyFromZeros(init);
      assert (forall i :: 0 <= i < |d| ==> d[i] == '0') <==>
        (forall i :: 0 <= i < |init| ==> init[i] == '0') && d[|d| - 1] == '0';
    }
  }

  /** Reading `a + b` as one number shifts `a` left by the length of `b`. */
  lemma AllInConcat(k: CharClass, a: string, b: string)
    requires AllIn(k, a) && AllIn(k, b)
    ensures AllIn(k, a + b)
  {
    forall i | 0 <= i < |a + b| ensures InClass(k, (a + b)[i]) {
      if i < |a| { assert (a + b)[i] == a[i]; } else { assert (a + b)[i] == b[i - |a|]; }
    }
  }

  /** One more trailing digit: the arithmetic step of `DigitsValueConcat`. */
  lemma ShiftDigit(va: nat, p: nat, vi: nat, d: nat)
    ensures (va * p + vi) * 10 + d == va * (p * 10) + (vi * 10 + d)
  {
    assert (va * p) * 10 == va * (p * 10);
  }

  lemma {:induction false} DigitsValueConcat(a: string, b: string)
    requires AllIn(Digit, a) && AllIn(Digit, b)
    ensures AllIn(Digit, a + b)
    ensures DigitsValue(a + b) == DigitsValue(a) * Pow10(|b|) + DigitsValue(b)
  {
    AllInConcat(Digit, a, b);
    if b == [] {
      assert a + b == a;
    } else {
      var init := b[..|b| - 1];
      var last := b[|b| - 1];
      assert AllIn(Digit, init);
      assert (a + b)[..|a + b| - 1] == a + init;
      assert (a + b)[|a + b| - 1] == last;
      DigitsValueConcat(a, init);
      assert DigitsValue(a + b) == DigitsValue(a + init) * 10 + DigitValue(last);
      assert DigitsValue(b) == DigitsValue(init) * 10 + DigitValue(last);
      ShiftDigit(DigitsValue(a), Pow10(|init|), DigitsValue(init), DigitValue(last));
    }
  }

  /** Python's `int(s)` on the strings this module produces: optional minus sign,
      then decimal digits; anything else raises, which is `None` here. */
  function ParseInt(s: string): Option<int> {
    if |s| > 1 && s[0] == '-' && AllIn(Digit, s[1..]) then Some(-(DigitsValue(s[1..]) as int))
    else if |s| > 0 && AllIn(Digit, s) then Some(DigitsValue(s))
    else None
  }

  // ---------------------------------------------------------------------------
  // The patterns and the matcher

  /** A link pattern `<literal>(<first>+)/(\d+)`: an escaped literal, a group of
      one or more characters of class `first`, a slash, and a group of digits. */
  datatype Pattern = Pattern(literal: string, first: CharClass)

  /** `t\.me/c/(\d+)/(\d+)` */
  const ChannelPattern := Pattern("t.me/c/", Digit)
  /** `t\.me/(\w+)/(\d+)` */
  const HandlePattern := Pattern("t.me/", Word)
  /** `https://t\.me/(\w+)/(\d+)` */
  const SecureHandlePattern := Pattern("https://t.me/", Word)
  /** `https://t\.me/c/(\d+)/(\d+)` */
  const SecureChannelPattern := Pattern("https://t.me/c/", Digit)

  /** The patterns in the order they are tried. */
  const Patterns := [ChannelPattern, HandlePattern, SecureHandlePattern, SecureChannelPattern]

  /** The `'c/' in pattern` test: of the four pattern texts, exactly those whose
      literal part ends in `c/` contain `c/`. */
  predicate IsChannel(p: Pattern) {
    |p.literal| >= 2 && p.literal[|p.literal| - 2..] == "c/"
  }

  /** Length of the longest run of class-`k` characters starting at `i`. */
  function RunLength(k: CharClass, s: string, i: nat): (n: nat)
    requires i <= |s|
    ensures i + n <= |s|
    ensures forall j :: i <= j < i + n ==> InClass(k, s[j])
    ensures i + n == |s| || !InClass(k, s[i + n])
    decreases |s| - i
  {
    if i < |s| && InClass(k, s[i]) then 1 + RunLength(k, s, i + 1) else 0
  }

  lemma RunLengthIs(k: CharClass, s: string, i: nat, n: nat)
    requires i + n <= |s|
    requires forall j :: i <= j < i + n ==> InClass(k, s[j])
    requires i + n == |s| || !InClass(k, s[i + n])
    ensures RunLength(k, s, i) == n
  {
  }

  datatype Groups = Groups(first: string, second: string)

  /** The match of `p` anchored at position `i` of `s`, with its two groups.
      Each `+` group takes the longest run of its class: it is followed either
      by '/' or by the end of the pattern, and '/' is in neither class, so a
      backtracking matcher can never succeed with a shorter run. */
  function MatchAt(p: Pattern, s: string, i: nat): (r: Option<Groups>)
    requires i <= |s|
    ensures r.Some? ==> i + |p.literal| <= |s| && s[i..i + |p.literal|] == p.literal
    ensures r.Some? ==> |r.value.first| > 0 && AllIn(p.first, r.value.first)
    ensures r.Some? ==> |r.value.second| > 0 && AllIn(Digit, r.value.second)
  {
    var a := i + |p.literal|;
    if a <= |s| && s[i..a] == p.literal then
      var n1 := RunLength(p.first, s, a);
      var b := a + n1;
      if n1 > 0 && b < |s| && s[b] == '/' then
        var n2 := RunLength(Digit, s, b + 1);
        if n2 > 0 then Some(Groups(s[a..b], s[b + 1..b + 1 + n2])) else None
      else None
    else None
  }

  /** `re.search`: the leftmost position at or after `from` where `p` matches. */
  function Search(p: Pattern, s: string, from: nat): (r: Option<nat>)
    requires from <= |s|
    ensures r.Some? ==> from <= r.value <= |s| && MatchAt(p, s, r.value).Some?
    ensures r.Some? ==> forall j :: from <= j < r.value ==> MatchAt(p, s, j).None?
    ensures r.None? ==> forall j :: from <= j <= |s| ==> MatchAt(p, s, j).None?
    decreases |s| - from
  {
    if MatchAt(p, s, from).Some? then Some(from)
    else if from == |s| then None
    else Search(p, s, from + 1)
  }

  // ---------------------------------------------------------------------------
  // parse_telegram_link

  /** A parsed link: the chat identifier (a `-100...` string or a handle) and the message id. */
  datatype Link = Link(chat: string, messageId: nat)

  function Extract(p: Pattern, g: Groups): Link
    requires AllIn(Digit, g.second)
  {
    Link(if IsChannel(p) then "-100" + g.first else g.first, DigitsValue(g.second))
  }

  /** Try the patterns in order; the first one that matches anywhere decides. */
  function ParseWith(ps: seq<Pattern>, s: string): Option<Link> {
    if ps == [] then None
    else match Search(ps[0], s, 0)
      case Some(i) => Some(Extract(ps[0], MatchAt(ps[0], s, i).value))
      case None => ParseWith(ps[1..], s)
  }

  /** `parse_telegram_link`: `None` stands for the `(None, None)` result. */
  function ParseLink(s: string): Option<Link> {
    ParseWith(Patterns, s)
  }

  // ---------------------------------------------------------------------------
  // Properties of the parser

  /** A match needs the '.' of "t.me" at the second position of the literal. */
  lemma MatchNeedsDot(p: Pattern, s: string, i: nat)
    requires i <= |s| && |p.literal| >= 2 && p.literal[1] == '.'
    requires MatchAt(p, s, i).Some?
    ensures i + 1 < |s| && s[i + 1] == '.'
  {
    var a := i + |p.literal|;
    assert s[i..a][1] == s[i + 1];
  }

  /** Two patterns with the same group class whose literals both match and end
      at the same position match with the same groups. */
  lemma MatchAtSameEnd(p: Pattern, q: Pattern, s: string, i: nat, j: nat)
    requires p.first == q.first && i + |p.literal| == j + |q.literal| <= |s|
    requires s[i..i + |p.literal|] == p.literal && s[j..j + |q.literal|] == q.literal
    ensures MatchAt(p, s, i) == MatchAt(q, s, j)
  {
  }

  /** Any text matched by an `https://` pattern at `i` is matched, with the same
      groups, by the plain pattern at `i + 8`. */
  lemma SecureImpliesPlain(p: Pattern, q: Pattern, s: string, i: nat)
    requires i <= |s| && p.literal == "https://" + q.literal && p.first == q.first
    requires MatchAt(p, s, i).Some?
    ensures i + 8 <= |s| && MatchAt(q, s, i + 8) == MatchAt(p, s, i)
  {
    var a := i + |p.literal|;
    assert |"https://"| == 8;
    assert s[i + 8..a] == s[i..a][8..] == p.literal[8..] == q.literal;
    MatchAtSameEnd(p, q, s, i, i + 8);
  }

  lemma SecureLiterals()
    ensures SecureHandlePattern == Pattern("https://" + HandlePattern.literal, HandlePattern.first)
    ensures SecureChannelPattern == Pattern("https://" + ChannelPattern.literal, ChannelPattern.first)
  {
  }

  /** When neither plain pattern matches anywhere, neither `https://` pattern does. */
  lemma SecureNeedsPlain(s: string)
    requires Search(ChannelPattern, s, 0).None? && Search(HandlePattern, s, 0).None?
    ensures Search(SecureHandlePattern, s, 0).None? && Search(SecureChannelPattern, s, 0).None?
  {
    SecureLiterals();
    var r3 := Search(SecureHandlePattern, s, 0);
    if r3.Some? {
      SecureImpliesPlain(SecureHandlePattern, HandlePattern, s, r3.value);
      assert false;
    }
    var r4 := Search(SecureChannelPattern, s, 0);
    if r4.Some? {
      SecureImpliesPlain(SecureChannelPattern, ChannelPattern, s, r4.value);
      assert false;
    }
  }

  /** One step of the find-first loop. */
  lemma ParseWithStep(ps: seq<Pattern>, s: string)
    requires ps != []
    ensures Search(ps[0], s, 0).Some? ==>
      ParseWith(ps, s) == Some(Extract(ps[0], MatchAt(ps[0], s, Search(ps[0], s, 0).value).value))
    ensures Search(ps[0], s, 0).None? ==> ParseWith(ps, s) == ParseWith(ps[1..], s)
  {
  }

  /** The two `https://` patterns are never the deciding match: parsing with the
      first two patterns alone gives the same result on every input. */
  lemma {:induction false} HttpsNeverDecides(s: string)
    ensures ParseLink(s) == ParseWith([ChannelPattern, HandlePattern], s)
  {
    var tail1, tail2, tail3 := Patterns[1..], Patterns[2..], Patterns[3..];
    var two := [ChannelPattern, HandlePattern];
    assert Patterns[0] == ChannelPattern && tail1[0] == HandlePattern;
    assert tail1[1..] == tail2 && tail2[1..] == tail3 && tail3[1..] == [];
    assert tail2[0] == SecureHandlePattern && tail3[0] == SecureChannelPattern;
    assert two[0] == ChannelPattern && two[1..] == [HandlePattern] && [HandlePattern][1..] == [];
    ParseWithStep(Patterns, s);
    ParseWithStep(two, s);
    if Search(ChannelPattern, s, 0).None? {
      ParseWithStep(tail1, s);
      ParseWithStep([HandlePattern], s);
      if Search(HandlePattern, s, 0).None? {
        SecureNeedsPlain(s);
        ParseWithStep(tail2, s);
        ParseWithStep(tail3, s);
      }
    }
  }

  /** The first pattern in list order that matches anywhere decides: a channel
      match gives `-100` joined to its first group, otherwise a handle match gives
      the handle, otherwise there is no result. Both use the leftmost match. */
  lemma ParseLinkCases(s: string)
    ensures Search(ChannelPattern, s, 0).Some? ==>
      var g := MatchAt(ChannelPattern, s, Search(ChannelPattern, s, 0).value).value;
      ParseLink(s) == Some(Link("-100" + g.first, DigitsValue(g.second)))
    ensures Search(ChannelPattern, s, 0).None? && Search(HandlePattern, s, 0).Some? ==>
      var g := MatchAt(HandlePattern, s, Search(HandlePattern, s, 0).value).value;
      ParseLink(s) == Some(Link(g.first, DigitsValue(g.second)))
    ensures Search(ChannelPattern, s, 0).None? && Search(HandlePattern, s, 0).None? ==>
      ParseLink(s).None?
  {
    HttpsNeverDecides(s);
    var two := [ChannelPattern, HandlePattern];
    assert two[0] == ChannelPattern && two[1..] == [HandlePattern] && [HandlePattern][1..] == [];
    ParseWithStep(two, s);
    ParseWithStep([HandlePattern], s);
    ChannelFlags();
  }

  lemma ChannelFlags()
    ensures IsChannel(ChannelPattern) && !IsChannel(HandlePattern)
  {
    assert "t.me/"[3..] == "e/";
  }

  /** The result is `(None, None)` exactly when neither `t.me/c/<d>/<d>` nor
      `t.me/<w>/<d>` matches at any position. */
  lemma ParseLinkFails(s: string)
    ensures ParseLink(s).None? <==>
      forall j :: 0 <= j <= |s| ==> MatchAt(ChannelPattern, s, j).None? && MatchAt(HandlePattern, s, j).None?
  {
    ParseLinkCases(s);
  }

  predicate IsChannelChat(chat: string) {
    |chat| > 4 && chat[..4] == "-100" && AllIn(Digit, chat[4..])
  }

  /** A channel identifier is a minus sign followed by the digits "100..." */
  lemma ChannelChatDigits(chat: string)
    requires IsChannelChat(chat)
    ensures chat[0] == '-' && AllIn(Digit, chat[1..])
  {
    assert chat[..4][0] == '-' && chat[..4][1] == '1' && chat[..4][2] == '0' && chat[..4][3] == '0';
    forall k | 1 <= k < |chat| ensures IsDigit(chat[k]) {
      if k < 4 { assert chat[k] == chat[..4][k]; } else { assert chat[k] == chat[4..][k - 4]; }
    }
  }

  /** Every parsed chat identifier is either `-100` followed by digits or a
      non-empty handle of word characters (which never starts with '-'). */
  lemma ParsedChatShape(s: string)
    requires ParseLink(s).Some?
    ensures var c := ParseLink(s).value.chat;
      IsChannelChat(c) || (|c| > 0 && AllIn(Word, c) && c[0] != '-')
  {
    ParseLinkCases(s);
    var c := ParseLink(s).value.chat;
    if Search(ChannelPattern, s, 0).Some? {
      var g := MatchAt(ChannelPattern, s, Search(ChannelPattern, s, 0).value).value;
      assert c[..4] == "-100" && c[4..] == g.first;
    } else {
      assert InClass(Word, c[0]);
    }
  }

  /** `p` matches at `i` when the text from `i` on is its literal, a non-empty
      group of its class, a slash and a non-empty digit group running to the end. */
  lemma MatchAtOn(p: Pattern, s: string, i: nat, g1: string, g2: string)
    requires i <= |s| && s[i..] == p.literal + g1 + "/" + g2
    requires |g1| > 0 && AllIn(p.first, g1) && |g2| > 0 && AllIn(Digit, g2)
    ensures MatchAt(p, s, i) == Some(Groups(g1, g2))
  {
    var a := i + |p.literal|;
    var b := a + |g1|;
    LinkPieces(s, i, p.literal, g1, g2);
    MatchAtPieces(p, s, i, a, b);
  }

  /** The pieces of `lit + g1 + "/" + g2` found at position `i` of `s`. */
  lemma LinkPieces(s: string, i: nat, lit: string, g1: string, g2: string)
    requires i <= |s| && s[i..] == lit + g1 + "/" + g2
    ensures |s| == i + |lit| + |g1| + 1 + |g2|
    ensures s[i..i + |lit|] == lit
    ensures s[i + |lit|..i + |lit| + |g1|] == g1
    ensures s[i + |lit| + |g1|] == '/'
    ensures s[i + |lit| + |g1| + 1..] == g2
  {
    var t := s[i..];
    var a := |lit|;
    var b := a + |g1|;
    assert t[..a] == lit;
    assert t[a..b] == g1;
    assert t[b] == '/';
    assert t[b + 1..] == g2;
    assert s[i..i + a] == t[..a];
    assert s[i + a..i + b] == t[a..b];
    assert s[i + b + 1..] == t[b + 1..];
  }

  lemma MatchAtPieces(p: Pattern, s: string, i: nat, a: nat, b: nat)
    requires i + |p.literal| == a < b < |s|
    requires s[i..a] == p.literal && AllIn(p.first, s[a..b]) && s[b] == '/'
    requires b + 1 < |s| && AllIn(Digit, s[b + 1..])
    ensures MatchAt(p, s, i) == Some(Groups(s[a..b], s[b + 1..]))
  {
    forall j | a <= j < b ensures InClass(p.first, s[j]) {
      assert s[j] == s[a..b][j - a];
    }
    RunLengthIs(p.first, s, a, b - a);
    forall j | b + 1 <= j < |s| ensures InClass(Digit, s[j]) {
      assert s[j] == s[b + 1..][j - b - 1];
    }
    RunLengthIs(Digit, s, b + 1, |s| - b - 1);
    assert s[b + 1..b + 1 + (|s| - b - 1)] == s[b + 1..];
  }

  predicate DotFree(s: string) {
    forall k :: 0 <= k < |s| ==> s[k] != '.'
  }

  /** In `prefix + t`, where the prefix has no dot and `t` has none except
      perhaps at index 1, a dot can only be at `|prefix| + 1`. */
  lemma OnlyDot(prefix: string, t: string)
    requires DotFree(prefix) && |t| >= 2
    requires forall k :: 0 <= k < |t| && k != 1 ==> t[k] != '.'
    ensures forall j :: 0 <= j < |prefix + t| && (prefix + t)[j] == '.' ==> j == |prefix| + 1
  {
    var s := prefix + t;
    forall j | 0 <= j < |s| && j != |prefix| + 1 ensures s[j] != '.' {
      if j < |prefix| { assert s[j] == prefix[j]; } else { assert s[j] == t[j - |prefix|]; }
    }
  }

  /** A pattern whose literal starts "t." can only match one position before the dot,
      so the search finds that position or nothing. */
  lemma SearchBeforeDot(p: Pattern, s: string, m: nat)
    requires |p.literal| >= 2 && p.literal[1] == '.'
    requires m < |s| && forall j :: 0 <= j < |s| && s[j] == '.' ==> j == m + 1
    ensures Search(p, s, 0) == if MatchAt(p, s, m).Some? then Some(m) else None
  {
    forall j | 0 <= j <= |s| && j != m ensures MatchAt(p, s, j).None? {
      if MatchAt(p, s, j).Some? { MatchNeedsDot(p, s, j); }
    }
    var r := Search(p, s, 0);
    if r.Some? {
      assert r.value == m;
    }
  }

  /** The literal, word or digit group, slash and digit group of a link have no
      dot after the dot of "t.me". */
  lemma LinkTailDotFree(lit: string, g1: string, g2: string)
    requires |lit| >= 2 && forall k :: 0 <= k < |lit| && k != 1 ==> lit[k] != '.'
    requires AllIn(Word, g1) || AllIn(Digit, g1)
    requires AllIn(Digit, g2)
    ensures forall k :: 0 <= k < |lit + g1 + "/" + g2| && k != 1 ==> (lit + g1 + "/" + g2)[k] != '.'
  {
    var t := lit + g1 + "/" + g2;
    forall k | 0 <= k < |t| && k != 1 ensures t[k] != '.' {
      if k < |lit| {
      } else if k < |lit| + |g1| {
        assert t[k] == g1[k - |lit|];
      } else if k > |lit| + |g1| {
        assert t[k] == g2[k - |lit| - |g1| - 1];
      }
    }
  }

  lemma LiteralFacts()
    ensures ChannelPattern.literal == "t.me/c/" && HandlePattern.literal == "t.me/"
    ensures forall k :: 0 <= k < 7 && k != 1 ==> "t.me/c/"[k] != '.'
    ensures forall k :: 0 <= k < 5 && k != 1 ==> "t.me/"[k] != '.'
    ensures "t.me/c/"[1] == '.' && "t.me/"[1] == '.'
  {
  }

  /** A private-channel link `t.me/c/<d1>/<d2>`, after any text without a '.'
      (such as "https://" or nothing), parses to the `-100` marker joined to the
      channel digits, and the message number. */
  lemma ChannelLinkParses(prefix: string, d1: string, d2: string)
    requires DotFree(prefix)
    requires |d1| > 0 && AllIn(Digit, d1) && |d2| > 0 && AllIn(Digit, d2)
    ensures ParseLink(prefix + ("t.me/c/" + d1 + "/" + d2)) == Some(Link("-100" + d1, DigitsValue(d2)))
  {
    var t := "t.me/c/" + d1 + "/" + d2;
    var s := prefix + t;
    var m := |prefix|;
    LiteralFacts();
    assert s[m..] == t;
    MatchAtOn(ChannelPattern, s, m, d1, d2);
    LinkTailDotFree("t.me/c/", d1, d2);
    OnlyDot(prefix, t);
    SearchBeforeDot(ChannelPattern, s, m);
    ParseLinkCases(s);
  }

  /** A public link `t.me/<w>/<d>`, after any text without a '.', parses to the
      handle and the message number, whatever the handle is: `t.me/c/123`, with
      a single number, is the handle `c` and message 123. */
  lemma HandleLinkParses(prefix: string, w: string, d: string)
    requires DotFree(prefix)
    requires |w| > 0 && AllIn(Word, w) && |d| > 0 && AllIn(Digit, d)
    ensures ParseLink(prefix + ("t.me/" + w + "/" + d)) == Some(Link(w, DigitsValue(d)))
  {
    var t := "t.me/" + w + "/" + d;
    var s := prefix + t;
    var m := |prefix|;
    LiteralFacts();
    assert s[m..] == t;
    LinkTailDotFree("t.me/", w, d);
    OnlyDot(prefix, t);
    MatchAtOn(HandlePattern, s, m, w, d);
    HandleBlocksChannel(s, m, w, d);
    SearchBeforeDot(ChannelPattern, s, m);
    SearchBeforeDot(HandlePattern, s, m);
    ParseLinkCases(s);
  }

  /** Where a public link starts, the channel pattern fails: either the handle is
      longer than "c", or it is "c" and its digits end the text with no '/'. */
  lemma HandleBlocksChannel(s: string, m: nat, w: string, d: string)
    requires m <= |s| && s[m..] == "t.me/" + w + "/" + d
    requires |w| > 0 && AllIn(Word, w) && AllIn(Digit, d)
    ensures MatchAt(ChannelPattern, s, m).None?
  {
    var t := "t.me/" + w + "/" + d;
    LiteralFacts();
    assert s[m + 6] == t[6];
    if |w| > 1 {
      assert t[6] == w[1] && InClass(Word, w[1]);
      assert s[m..m + 7][6] != ChannelPattern.literal[6];
    } else {
      forall j | m + 7 <= j < |s| ensures InClass(Digit, s[j]) {
        assert s[j] == t[j - m] == d[j - m - 7];
      }
      RunLengthIs(Digit, s, m + 7, |s| - m - 7);
    }
  }

  // ---------------------------------------------------------------------------
  // get_chat_id_from_link

  /** `get_chat_id_from_link`: a `-100...` identifier is converted with `int`,
      any other identifier is looked up with `resolve` (the client's `get_chat`;
      `None` stands for an exception, which the source turns into `None`). */
  function ChatIdFromLink(link: string, resolve: string -> Option<int>): (r: Option<int>)
    ensures ParseLink(link).None? ==> r.None?
    ensures ParseLink(link).Some? && IsChannelChat(ParseLink(link).value.chat) ==>
      r == Some(-(DigitsValue(ParseLink(link).value.chat[1..]) as int))
    ensures ParseLink(link).Some? && !IsChannelChat(ParseLink(link).value.chat) ==>
      r == resolve(ParseLink(link).value.chat)
  {
    match ParseLink(link)
    case None => None
    case Some(l) =>
      // The source's `not chat_identifier` test only fails on a failed parse:
      // ParsedChatShape shows that a parsed identifier is never empty.
      if |l.chat| >= 4 && l.chat[..4] == "-100" then
        ParsedChatShape(link);
        ChannelChatDigits(l.chat);
        ParseInt(l.chat)
      else
        ParsedChatShape(link);
        resolve(l.chat)
  }

  lemma HundredValue()
    ensures AllIn(Digit, "100") && DigitsValue("100") == 100
  {
    assert "100"[..2] == "10" && "10"[..1] == "1" && "1"[..0] == "";
  }

  /** A private-channel identifier converts without the client to the negative
      id `-(100 * 10^|d| + int(d))` for its channel digits d, which is at most -100. */
  lemma ChannelChatId(link: string, resolve: string -> Option<int>)
    requires ParseLink(link).Some? && IsChannelChat(ParseLink(link).value.chat)
    ensures var d := ParseLink(link).value.chat[4..];
      ChatIdFromLink(link, resolve) == Some(-(100 * Pow10(|d|) + DigitsValue(d)))
    ensures ChatIdFromLink(link, resolve).value <= -100
  {
    var chat := ParseLink(link).value.chat;
    var d := chat[4..];
    assert chat[1..] == chat[1..4] + d;
    assert chat[1..4] == "100" by {
      assert chat[..4] == "-100";
      assert chat[1..4] == chat[..4][1..];
    }
    ChannelChatDigits(chat);
    HundredValue();
    DigitsValueConcat("100", d);
  }
}
