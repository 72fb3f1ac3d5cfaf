/** The two string functions of resources/js/components/taskManager.js:
    escapeHtml, the encoder used before a title is put into markup, and
    parseNaturalLanguage, which picks a due date out of the quick-add text
    and removes the keyword from the title; plus the blank-input guard of
    the add handler. JavaScript strings are modelled as sequences of
    characters. */
module TaskManager {
  import opened Wrappers
  import opened Text
  import opened Calendar

  // ---- escapeHtml ---------------------------------------------------------

  /** The five characters the encoder replaces. */
  predicate IsSpecial(c: char) {
    c == '&' || c == '<' || c == '>' || c == '"' || c == '\''
  }

  /** The characters that can open or close markup or an attribute value. */
  predicate IsMarkup(c: char) {
    c == '<' || c == '>' || c == '"' || c == '\''
  }

  /** The entity `map[m]` gives a special character; others are copied. */
  function EscapeChar(c: char): (r: string)
    ensures forall i :: 0 <= i < |r| ==> !IsMarkup(r[i])
    ensures !IsSpecial(c) ==> r == [c]
  {
    if c == '&' then "&amp;"
    else if c == '<' then "&lt;"
    else if c == '>' then "&gt;"
    else if c == '"' then "&quot;"
    else if c == '\'' then "&#039;"
    else [c]
  }

  /** text.replace(/[&<>"']/g, m => map[m]): one left-to-right pass; the
      entities written are never scanned again. */
  function EscapeHtml(s: string): (r: string)
    ensures forall i :: 0 <= i < |r| ==> !IsMarkup(r[i])
    ensures (forall i :: 0 <= i < |s| ==> !IsSpecial(s[i])) ==> r == s
    ensures |s| <= |r|
  {
    if |s| == 0 then ""
    else EscapeChar(s[0]) + EscapeHtml(s[1..])
  }

  /** Escaping works character by character: it distributes over concatenation. */
  lemma {:induction false} EscapeHtmlAppend(a: string, b: string)
    ensures EscapeHtml(a + b) == EscapeHtml(a) + EscapeHtml(b)
  {
    if |a| > 0 {
      assert (a + b)[0] == a[0] && (a + b)[1..] == a[1..] + b;
      EscapeHtmlAppend(a[1..], b);
    } else {
      assert a + b == b;
    }
  }

  /** The decoder for the five entities: the reference that escapeHtml is
      checked against. */
  function UnescapeHtml(s: string): string
    decreases |s|
  {
    if |s| == 0 then ""
    else if StartsWith(s, "&amp;") then "&" + UnescapeHtml(s[5..])
    else if StartsWith(s, "&lt;") then "<" + UnescapeHtml(s[4..])
    else if StartsWith(s, "&gt;") then ">" + UnescapeHtml(s[4..])
    else if StartsWith(s, "&quot;") then "\"" + UnescapeHtml(s[6..])
    else if StartsWith(s, "&#039;") then "'" + UnescapeHtml(s[6..])
    else [s[0]] + UnescapeHtml(s[1..])
  }

  lemma PrefixOf(e: string, t: string)
    ensures StartsWith(e + t, e) && (e + t)[|e|..] == t
  {
    assert (e + t)[..|e|] == e;
  }

  lemma NotPrefixAt(s: string, p: string, k: nat)
    requires k < |p| && k < |s| && s[k] != p[k]
    ensures !StartsWith(s, p)
  {
    if |p| <= |s| {
      assert s[..|p|][k] == s[k];
    }
  }

  /** Decoding one escaped character gives the character back. */
  lemma UnescapeEscapeChar(c: char, t: string)
    ensures UnescapeHtml(EscapeChar(c) + t) == [c] + UnescapeHtml(t)
  {
    var e := EscapeChar(c);
    var s := e + t;
    PrefixOf(e, t);
    if c == '&' {
    } else if c == '<' {
      NotPrefixAt(s, "&amp;", 1);
    } else if c == '>' {
      NotPrefixAt(s, "&amp;", 1);
      NotPrefixAt(s, "&lt;", 1);
    } else if c == '"' {
      NotPrefixAt(s, "&amp;", 1);
      NotPrefixAt(s, "&lt;", 1);
      NotPrefixAt(s, "&gt;", 1);
    } else if c == '\'' {
      NotPrefixAt(s, "&amp;", 1);
      NotPrefixAt(s, "&lt;", 1);
      NotPrefixAt(s, "&gt;", 1);
      NotPrefixAt(s, "&quot;", 1);
    } else {
      NotPrefixAt(s, "&amp;", 0);
      NotPrefixAt(s, "&lt;", 0);
      NotPrefixAt(s, "&gt;", 0);
      NotPrefixAt(s, "&quot;", 0);
      NotPrefixAt(s, "&#039;", 0);
    }
  }

  /** Escaping loses nothing: decoding the output restores the text. */
  lemma {:induction false} EscapeRoundTrip(s: string)
    ensures UnescapeHtml(EscapeHtml(s)) == s
  {
    if |s| > 0 {
      UnescapeEscapeChar(s[0], EscapeHtml(s[1..]));
      EscapeRoundTrip(s[1..]);
      assert [s[0]] + s[1..] == s;
    }
  }

  // ---- String.prototype.trim ----------------------------------------------------

  /** WhiteSpace and LineTerminator of ECMAScript: what trim() strips. */
  predicate IsJsSpace(c: char) {
    c == '\t' || c == '\n' || c == '\U{0B}' || c == '\U{0C}' || c == '\r' || c == ' '
    || c == '\U{A0}' || c == '\U{1680}' || ('\U{2000}' <= c <= '\U{200A}')
    || c == '\U{2028}' || c == '\U{2029}' || c == '\U{202F}' || c == '\U{205F}'
    || c == '\U{3000}' || c == '\U{FEFF}'
  }

  /** No white space at either end. */
  predicate Trimmed(s: string) {
    |s| == 0 || (!IsJsSpace(s[0]) && !IsJsSpace(s[|s| - 1]))
  }

  function TrimStart(s: string): (r: string)
    ensures |r| <= |s| && r == s[|s| - |r|..]
    ensures forall i :: 0 <= i < |s| - |r| ==> IsJsSpace(s[i])
    ensures |r| > 0 ==> !IsJsSpace(r[0])
  {
    if |s| > 0 && IsJsSpace(s[0]) then TrimStart(s[1..]) else s
  }

  function TrimEnd(s: string): (r: string)
    ensures |r| <= |s| && r == s[..|r|]
    ensures forall i :: |r| <= i < |s| ==> IsJsSpace(s[i])
    ensures |r| > 0 ==> !IsJsSpace(r[|r| - 1])
  {
    if |s| > 0 && IsJsSpace(s[|s| - 1]) then TrimEnd(s[..|s| - 1]) else s
  }

  lemma TrimBothEnds(s: string, front: string, r: string)
    requires front == TrimStart(s) && r == TrimEnd(front)
    ensures Trimmed(r)
    ensures r == "" <==> forall i :: 0 <= i < |s| ==> IsJsSpace(s[i])
  {
    if |r| > 0 {
      assert r[0] == front[0];
    }
    if r == "" {
      assert front == "";
    }
  }

  /** s.trim(): drop white space from both ends; only an all-white-space
      text trims to "". */
  function JsTrim(s: string): (r: string)
    ensures Trimmed(r)
    ensures r == "" <==> forall i :: 0 <= i < |s| ==> IsJsSpace(s[i])
  {
    var front := TrimStart(s);
    var r := TrimEnd(front);
    TrimBothEnds(s, front, r);
    r
  }

  /** Trimming a trimmed text changes nothing. */
  lemma TrimTrimmed(s: string)
    requires Trimmed(s)
    ensures JsTrim(s) == s
  {
  }

  // ---- parseNaturalLanguage -----------------------------------------------------

  /** ASCII lower case; a case-insensitive regular expression without the
      `u` flag folds no other character onto these letters. */
  function Lower(c: char): char {
    if 'A' <= c <= 'Z' then (c as int + 32) as char else c
  }

  /** The lower-case `pattern` occurs in `s` at `i`, ignoring case. */
  predicate MatchesAt(s: string, pattern: string, i: int) {
    0 <= i && i + |pattern| <= |s| && forall k :: 0 <= k < |pattern| ==> Lower(s[i + k]) == pattern[k]
  }

  /** The first position at or after `i` where `pattern` occurs. */
  function IndexFrom(s: string, pattern: string, i: nat): (r: Option<nat>)
    ensures r.Some? ==> i <= r.value && MatchesAt(s, pattern, r.value)
                        && forall j :: i <= j < r.value ==> !MatchesAt(s, pattern, j)
    ensures r.None? ==> forall j :: i <= j ==> !MatchesAt(s, pattern, j)
    decreases |s| - i
  {
    if i + |pattern| > |s| then None
    else if MatchesAt(s, pattern, i) then Some(i)
    else IndexFrom(s, pattern, i + 1)
  }

  /** The patterns in the order they are tried. */
  const Keywords: seq<string> := ["today", "tomorrow", "next week", "next month"]

  /** The date each pattern stands for: today, tomorrow, a week and a month
      ahead; luxon's month addition clamps to the end of the month. */
  function KeywordDate(k: nat, today: Date): Date
    requires k < |Keywords|
  {
    if k == 0 then today
    else if k == 1 then AddDays(today, 1)
    else if k == 2 then AddDays(today, 7)
    else AddMonthsClamp(today, 1)
  }

  predicate Mentions(input: string, k: nat)
    requires k < |Keywords|
  {
    IndexFrom(input, Keywords[k], 0).Some?
  }

  /** The first pattern, from `k` on, that the input mentions. */
  function FirstKeyword(input: string, k: nat): (r: Option<nat>)
    requires k <= |Keywords|
    ensures r.Some? ==> k <= r.value < |Keywords| && Mentions(input, r.value)
                        && forall j :: k <= j < r.value ==> !Mentions(input, j)
    ensures r.None? ==> forall j :: k <= j < |Keywords| ==> !Mentions(input, j)
    decreases |Keywords| - k
  {
    if k == |Keywords| then None
    else if Mentions(input, k) then Some(k)
    else FirstKeyword(input, k + 1)
  }

  /** Delete `n` characters at `i` (String.replace of the first match by ''). */
  function RemoveAt(s: string, i: nat, n: nat): string
    requires i + n <= |s|
  {
    s[..i] + s[i + n..]
  }

  datatype Parsed = Parsed(title: string, date: Option<Date>)

  /** The result parseNaturalLanguage computes, as a function of the input,
      today's date and whether luxon is loaded. */
  function Parse(input: string, today: Date, luxonLoaded: bool): Parsed {
    if !luxonLoaded then Parsed(input, None)
    else
      match FirstKeyword(input, 0)
      case None => Parsed(input, None)
      case Some(k) =>
        var at := IndexFrom(input, Keywords[k], 0).value;
        var title := JsTrim(RemoveAt(input, at, |Keywords[k]|));
        Parsed(if title == "" then input else title, Some(KeywordDate(k, today)))
  }

  /** parseNaturalLanguage(input): try the patterns in order and stop at the
      first one the input mentions. */
  method ParseNaturalLanguage(input: string, today: Date, luxonLoaded: bool) returns (title: string, date: Option<Date>)
    ensures Parsed(title, date) == Parse(input, today, luxonLoaded)
  {
    if !luxonLoaded {
      return input, None;
    }
    date, title := None, input;
    var k := 0;
    while k < |Keywords|
      invariant 0 <= k <= |Keywords|
      invariant FirstKeyword(input, 0) == FirstKeyword(input, k)
      invariant date == None && title == input
      decreases |Keywords| - k
    {
      var at := IndexFrom(input, Keywords[k], 0);
      if at.Some? {
        date := Some(KeywordDate(k, today));
        title := JsTrim(RemoveAt(input, at.value, |Keywords[k]|));
        break;
      }
      k := k + 1;
    }
    if title == "" {
      title := input;
    }
  }

  /** The first mentioned pattern decides the date; with none, the input
      comes back untouched and undated. */
  lemma ParseFirstMatchWins(input: string, today: Date, k: nat)
    requires k < |Keywords| && Mentions(input, k)
    requires forall j :: 0 <= j < k ==> !Mentions(input, j)
    ensures Parse(input, today, true).date == Some(KeywordDate(k, today))
  {
    assert FirstKeyword(input, 0) == Some(k);
  }

  lemma ParseNoMatch(input: string, today: Date)
    requires forall j :: 0 <= j < |Keywords| ==> !Mentions(input, j)
    ensures Parse(input, today, true) == Parsed(input, None)
  {
  }

  /** The title is never empty for a non-empty input, and a trimmed input
      gives a trimmed title. */
  lemma ParseTitle(input: string, today: Date, luxonLoaded: bool)
    ensures |input| > 0 ==> |Parse(input, today, luxonLoaded).title| > 0
    ensures Trimmed(input) ==> Trimmed(Parse(input, today, luxonLoaded).title)
  {
  }

  /** handleAddTask: the input is trimmed, a blank one sends nothing, and
      otherwise the parsed title is what is sent. */
  function AddTaskTitle(raw: string, today: Date, luxonLoaded: bool): (r: Option<Parsed>)
    ensures r.None? <==> forall i :: 0 <= i < |raw| ==> IsJsSpace(raw[i])
    ensures r.Some? ==> |r.value.title| > 0 && Trimmed(r.value.title)
  {
    var input := JsTrim(raw);
    if input == "" then None
    else
      ParseTitle(input, today, luxonLoaded);
      Some(Parse(input, today, luxonLoaded))
  }

  // ---- examples -----------------------------------------------------------------

  lemma MatchesAtWord(s: string, pattern: string, i: nat)
    requires i + |pattern| <= |s| && s[i..i + |pattern|] == pattern
    requires forall k :: 0 <= k < |pattern| ==> Lower(pattern[k]) == pattern[k]
    ensures MatchesAt(s, pattern, i)
  {
    forall k | 0 <= k < |pattern| ensures Lower(s[i + k]) == pattern[k] {
      assert s[i + k] == s[i..i + |pattern|][k];
    }
  }

  /** A match at `n` with no earlier position holding the pattern's first
      letter is the first match. */
  lemma FirstMatchAt(s: string, pattern: string, n: nat)
    requires |pattern| > 0 && MatchesAt(s, pattern, n)
    requires forall j :: 0 <= j < n ==> Lower(s[j]) != pattern[0]
    ensures IndexFrom(s, pattern, 0) == Some(n)
  {
  }

  /** The keyword alone: nothing is left of the title, so the input is kept. */
  lemma KeywordAloneKeepsInput(today: Date)
    ensures Parse("today", today, true) == Parsed("today", Some(today))
  {
    MatchesAtWord("today", "today", 0);
    FirstMatchAt("today", "today", 0);
    assert RemoveAt("today", 0, 5) == "";
  }

  /** A word followed by one space trims to the word. */
  lemma TrimWordSpace(w: string)
    requires |w| > 0 && !IsJsSpace(w[0]) && !IsJsSpace(w[|w| - 1])
    ensures JsTrim(w + " ") == w
  {
    var s := w + " ";
    assert s[0] == w[0];
    assert s[..|s| - 1] == w;
  }

  /** "Gym today": dated today, titled "Gym". */
  lemma GymToday(today: Date)
    ensures Parse("Gym " + "today", today, true) == Parsed("Gym", Some(today))
  {
    var input := "Gym " + "today";
    assert input[4..9] == "today";
    MatchesAtWord(input, "today", 4);
    FirstMatchAt(input, "today", 4);
    assert Keywords[0] == "today";
    assert FirstKeyword(input, 0) == Some(0);
    assert RemoveAt(input, 4, 5) == "Gym" + " ";
    assert !IsJsSpace('G') && !IsJsSpace('m');
    TrimWordSpace("Gym");
    assert JsTrim(RemoveAt(input, 4, 5)) == "Gym";
  }
}
