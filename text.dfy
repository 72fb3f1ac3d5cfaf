/** String helpers shared by the PHP and JavaScript parts of the model: PHP's
    explode/implode on a one-character separator, str_replace with an empty
    replacement, decimal rendering and parsing of identifiers. */
module Text {
  import opened Wrappers

  predicate StartsWith(s: string, prefix: string) {
    |prefix| <= |s| && s[..|prefix|] == prefix
  }

  /** Number of occurrences of `c` in `s`. */
  function Count(s: string, c: char): nat {
    if |s| == 0 then 0 else (if s[0] == c then 1 else 0) + Count(s[1..], c)
  }

  /** PHP `explode(sep, s)` for a one-character separator: the pieces between
      separators, an empty piece where two separators touch or at an end. */
  function Split(s: string, sep: char): (parts: seq<string>)
    ensures |parts| >= 1
  {
    if |s| == 0 then [""]
    else
      var rest := Split(s[1..], sep);
      if s[0] == sep then [""] + rest
      else [[s[0]] + rest[0]] + rest[1..]
  }

  /** PHP `implode(sep, parts)`. */
  function Join(parts: seq<string>, sep: char): string
    requires |parts| >= 1
  {
    if |parts| == 1 then parts[0] else parts[0] + [sep] + Join(parts[1..], sep)
  }

  lemma {:induction false} JoinSplit(s: string, sep: char)
    ensures Join(Split(s, sep), sep) == s
  {
    if |s| > 0 {
      JoinSplit(s[1..], sep);
      var rest := Split(s[1..], sep);
      if s[0] == sep {
        assert Split(s, sep) == [""] + rest;
        assert ([""] + rest)[1..] == rest;
      } else {
        var parts := [[s[0]] + rest[0]] + rest[1..];
        assert Split(s, sep) == parts;
        if |rest| == 1 {
          assert parts == [[s[0]] + rest[0]];
        } else {
          assert parts[1..] == rest[1..];
          assert Join(rest, sep) == rest[0] + [sep] + Join(rest[1..], sep);
        }
      }
    }
  }

  lemma {:induction false} SplitCount(s: string, sep: char)
    ensures |Split(s, sep)| == Count(s, sep) + 1
  {
    if |s| > 0 {
      SplitCount(s[1..], sep);
    }
  }

  lemma {:induction false} SplitPiecesFree(s: string, sep: char)
    ensures forall i :: 0 <= i < |Split(s, sep)| ==> sep !in Split(s, sep)[i]
  {
    if |s| > 0 {
      SplitPiecesFree(s[1..], sep);
      var rest := Split(s[1..], sep);
      if s[0] != sep {
        var parts := [[s[0]] + rest[0]] + rest[1..];
        assert Split(s, sep) == parts;
        forall i | 0 <= i < |parts| ensures sep !in parts[i] {
          if i == 0 {
            assert sep !in rest[0];
          } else {
            assert parts[i] == rest[i];
          }
        }
      }
    }
  }

  /** A piece that holds no separator is its own explode. */
  lemma {:induction false} SplitSingle(s: string, sep: char)
    requires sep !in s
    ensures Split(s, sep) == [s]
  {
    if |s| > 0 {
      assert sep !in s[1..];
      SplitSingle(s[1..], sep);
      assert s == [s[0]] + s[1..];
    }
  }

  /** Exploding `a + sep + b` splits at that separator. */
  lemma {:induction false} SplitAppend(a: string, sep: char, b: string)
    ensures Split(a + [sep] + b, sep) == Split(a, sep) + Split(b, sep)
  {
    var s := a + [sep] + b;
    if |a| == 0 {
      assert s[0] == sep && s[1..] == b;
    } else {
      assert s[0] == a[0] && s[1..] == a[1..] + [sep] + b;
      SplitAppend(a[1..], sep, b);
      var restA := Split(a[1..], sep);
      var restB := Split(b, sep);
      if a[0] != sep {
        assert (restA + restB)[0] == restA[0];
        assert (restA + restB)[1..] == restA[1..] + restB;
      }
    }
  }

  /** Exploding the implosion of separator-free pieces gives the pieces back. */
  lemma {:induction false} SplitJoin(parts: seq<string>, sep: char)
    requires |parts| >= 1
    requires forall i :: 0 <= i < |parts| ==> sep !in parts[i]
    ensures Split(Join(parts, sep), sep) == parts
  {
    SplitSingle(parts[0], sep);
    if |parts| > 1 {
      SplitJoin(parts[1..], sep);
      SplitAppend(parts[0], sep, Join(parts[1..], sep));
      assert [parts[0]] + parts[1..] == parts;
    }
  }

  // ---- decimal numbers --------------------------------------------------

  predicate IsDigit(c: char) { '0' <= c <= '9' }

  function DigitChar(d: nat): (c: char)
    requires d < 10
    ensures IsDigit(c)
  {
    (d + '0' as int) as char
  }

  function DigitValue(c: char): (d: nat)
    requires IsDigit(c)
    ensures d < 10
  {
    c as int - '0' as int
  }

  /** PHP's string form of a non-negative integer: no sign, no leading zero. */
  function NatToString(n: nat): (s: string)
    ensures |s| >= 1
    ensures forall i :: 0 <= i < |s| ==> IsDigit(s[i])
  {
    if n < 10 then [DigitChar(n)] else NatToString(n / 10) + [DigitChar(n % 10)]
  }

  predicate AllDigits(s: string) {
    forall i :: 0 <= i < |s| ==> IsDigit(s[i])
  }

  function DigitsValue(s: string): nat
    requires AllDigits(s)
  {
    if |s| == 0 then 0 else DigitsValue(s[..|s| - 1]) * 10 + DigitValue(s[|s| - 1])
  }

  /** Reads a non-empty string of decimal digits as a number; anything else is
      not an identifier. */
  function ParseNat(s: string): (r: Option<nat>)
    ensures r.Some? <==> |s| > 0 && AllDigits(s)
  {
    if |s| > 0 && AllDigits(s) then Some(DigitsValue(s)) else None
  }

  lemma {:induction false} ParseNatToString(n: nat)
    ensures ParseNat(NatToString(n)) == Some(n)
  {
    var s := NatToString(n);
    if n < 10 {
      assert s == [DigitChar(n)];
      assert s[..0] == [];
      assert DigitsValue(s) == DigitValue(DigitChar(n)) == n;
    } else {
      ParseNatToString(n / 10);
      assert s[..|s| - 1] == NatToString(n / 10);
      assert s[|s| - 1] == DigitChar(n % 10);
      assert DigitsValue(s) == (n / 10) * 10 + n % 10;
    }
  }

  /** Different numbers render differently. */
  lemma NatToStringInjective(m: nat, n: nat)
    ensures NatToString(m) == NatToString(n) ==> m == n
  {
    ParseNatToString(m);
    ParseNatToString(n);
  }

  // ---- str_replace(pattern, '', s) ----------------------------------------

  /** True when `pattern` occurs in `s` at position `i`. */
  predicate OccursAt(s: string, pattern: string, i: int) {
    0 <= i && i + |pattern| <= |s| && s[i..i + |pattern|] == pattern
  }

  /** PHP `str_replace(pattern, '', s)`: scans left to right and deletes every
      non-overlapping occurrence; the text produced is not scanned again. */
  function RemoveAll(s: string, pattern: string): (r: string)
    requires |pattern| > 0
    ensures |r| <= |s|
    decreases |s|
  {
    if |s| < |pattern| then s
    else if s[..|pattern|] == pattern then RemoveAll(s[|pattern|..], pattern)
    else [s[0]] + RemoveAll(s[1..], pattern)
  }

  /** Text in which the pattern never occurs comes back unchanged. */
  lemma {:induction false} RemoveAllAbsent(s: string, pattern: string)
    requires |pattern| > 0
    requires forall i :: !OccursAt(s, pattern, i)
    ensures RemoveAll(s, pattern) == s
  {
    if |s| >= |pattern| {
      assert !OccursAt(s, pattern, 0);
      assert s[..|pattern|] != pattern;
      forall i ensures !OccursAt(s[1..], pattern, i) {
        if OccursAt(s[1..], pattern, i) {
          assert s[1..][i..i + |pattern|] == s[i + 1..i + 1 + |pattern|];
          assert OccursAt(s, pattern, i + 1);
        }
      }
      RemoveAllAbsent(s[1..], pattern);
      assert s == [s[0]] + s[1..];
    }
  }

  /** A digit string never contains a pattern that starts with a non-digit.  */
  lemma DigitsAvoid(s: string, pattern: string)
    requires |pattern| > 0 && !IsDigit(pattern[0]) && AllDigits(s)
    ensures forall i :: !OccursAt(s, pattern, i)
  {
  }

  // ---- PHP trim() and the mail line format ----------------------------------

  /** The characters PHP's trim() strips by default. */
  predicate PhpSpace(c: char) {
    c == ' ' || c == '\t' || c == '\n' || c == '\r' || c == '\0' || c == '\U{0B}'
  }

  predicate NoBreak(s: string) {
    forall i :: 0 <= i < |s| ==> s[i] != '\r' && s[i] != '\n'
  }

  /** A line the mail format leaves as it is: no line break, and no PHP
      white space at either end. */
  predicate Plain(s: string) {
    NoBreak(s) && (|s| > 0 ==> !PhpSpace(s[0]) && !PhpSpace(s[|s| - 1]))
  }

  /** PHP ltrim(): `s` without its leading white space. */
  function LTrim(s: string): (r: string)
    ensures |r| <= |s| && r == s[|s| - |r|..]
    ensures forall i :: 0 <= i < |s| - |r| ==> PhpSpace(s[i])
    ensures |r| > 0 ==> !PhpSpace(r[0])
  {
    if |s| > 0 && PhpSpace(s[0]) then LTrim(s[1..]) else s
  }

  /** PHP rtrim(): `s` without its trailing white space. */
  function RTrim(s: string): (r: string)
    ensures |r| <= |s| && r == s[..|r|]
    ensures forall i :: |r| <= i < |s| ==> PhpSpace(s[i])
    ensures |r| > 0 ==> !PhpSpace(r[|r| - 1])
  {
    if |s| > 0 && PhpSpace(s[|s| - 1]) then RTrim(s[..|s| - 1]) else s
  }

  /** PHP trim(): both ends. */
  function Trim(s: string): (r: string)
    ensures |r| > 0 ==> !PhpSpace(r[0]) && !PhpSpace(r[|r| - 1])
    ensures NoBreak(s) ==> NoBreak(r)
    ensures Plain(s) ==> r == s
  {
    var l := LTrim(s);
    var r := RTrim(l);
    assert |r| > 0 ==> r[0] == l[0];
    r
  }

  /** preg_split('/\r\n|\r|\n/', s): the pieces between line breaks, a CR LF
      pair counting as one break. */
  function Lines(s: string): (parts: seq<string>)
    ensures |parts| >= 1
    ensures forall i :: 0 <= i < |parts| ==> NoBreak(parts[i])
    ensures NoBreak(s) ==> parts == [s]
  {
    if |s| == 0 then [""]
    else if s[0] == '\r' && |s| > 1 && s[1] == '\n' then [""] + Lines(s[2..])
    else if s[0] == '\r' || s[0] == '\n' then [""] + Lines(s[1..])
    else
      var rest := Lines(s[1..]);
      assert NoBreak(s) ==> NoBreak(s[1..]) && rest == [s[1..]] && [s[0]] + s[1..] == s;
      [[s[0]] + rest[0]] + rest[1..]
  }

  /** A break ends the piece in front of it; a CR LF pair is one break. */
  lemma {:induction false} LinesBreak(a: string, br: string, b: string)
    requires NoBreak(a) && (br == "\n" || br == "\r\n")
    ensures Lines(a + br + b) == [a] + Lines(b)
  {
    if |a| == 0 {
      assert a + br + b == br + b;
      assert (br + b)[|br|..] == b;
    } else {
      assert (a + br + b)[1..] == a[1..] + br + b;
      LinesBreak(a[1..], br, b);
      assert [a[0]] + a[1..] == a;
    }
  }

  /** Without carriage returns, the line pieces are explode("\n", s), so
      joining them with "\n" gives `s` back. */
  lemma {:induction false} LinesSplit(s: string)
    requires forall i :: 0 <= i < |s| ==> s[i] != '\r'
    ensures Lines(s) == Split(s, '\n')
    ensures Join(Lines(s), '\n') == s
  {
    if |s| > 0 {
      LinesSplit(s[1..]);
    }
    JoinSplit(s, '\n');
  }

  /** array_map('trim', parts). */
  function TrimEach(parts: seq<string>): (r: seq<string>)
    ensures |r| == |parts| && forall i :: 0 <= i < |parts| ==> r[i] == Trim(parts[i])
  {
    seq(|parts|, i requires 0 <= i < |parts| => Trim(parts[i]))
  }

  lemma {:induction false} JoinNoBreak(parts: seq<string>, sep: char)
    requires |parts| >= 1 && sep != '\r' && sep != '\n'
    requires forall i :: 0 <= i < |parts| ==> NoBreak(parts[i])
    ensures NoBreak(Join(parts, sep))
  {
    if |parts| > 1 {
      JoinNoBreak(parts[1..], sep);
    }
  }

  /** Laravel's SimpleMessage::formatLine, which MailMessage::line() applies
      to every string line: split at the line breaks, trim each piece, join
      the pieces with single spaces and trim the result. */
  function FormatLine(s: string): string {
    Trim(Join(TrimEach(Lines(s)), ' '))
  }

  /** A formatted line has no line break and no white space at either end,
      and a line that already has that form is kept as it is. */
  lemma FormatLineSpec(s: string)
    ensures Plain(FormatLine(s))
    ensures Plain(s) ==> FormatLine(s) == s
  {
    JoinNoBreak(TrimEach(Lines(s)), ' ');
  }

  /** Formatting twice is formatting once. */
  lemma FormatLineIdempotent(s: string)
    ensures FormatLine(FormatLine(s)) == FormatLine(s)
  {
    FormatLineSpec(s);
    FormatLineSpec(FormatLine(s));
  }

  lemma NoBreakAppend(a: string, b: string)
    requires NoBreak(a) && NoBreak(b)
    ensures NoBreak(a + b)
  {
    var s := a + b;
    forall i | |a| <= i < |s| ensures s[i] != '\r' && s[i] != '\n' {
      assert s[i] == b[i - |a|];
    }
  }

  /** A line joined from a non-empty head that starts with a visible
      character and a non-empty tail that ends with one, neither holding a
      line break, is kept as it is. */
  lemma PlainConcat(a: string, b: string)
    requires |a| > 0 && |b| > 0 && NoBreak(a) && NoBreak(b)
    requires !PhpSpace(a[0]) && !PhpSpace(b[|b| - 1])
    ensures Plain(a + b)
  {
    NoBreakAppend(a, b);
    assert (a + b)[0] == a[0] && (a + b)[|a + b| - 1] == b[|b| - 1];
  }

  /** Text with no line break that ends with a visible character. */
  predicate EndsVisible(s: string) {
    NoBreak(s) && |s| > 0 && !PhpSpace(s[|s| - 1])
  }

  /** A head that starts with a visible character, followed by text that
      ends with one, is filed as it is. */
  lemma FormatLineKeepsLabelled(head: string, text: string)
    requires |head| > 0 && NoBreak(head) && !PhpSpace(head[0])
    requires EndsVisible(text)
    ensures FormatLine(head + text) == head + text
  {
    PlainConcat(head, text);
    FormatLineSpec(head + text);
  }

  /** Decimal numbers are plain. */
  lemma NatToStringPlain(n: nat)
    ensures Plain(NatToString(n))
  {
    var s := NatToString(n);
    assert forall i :: 0 <= i < |s| ==> !PhpSpace(s[i]) && s[i] != '\r' && s[i] != '\n';
  }

  /** A line with one break is its two pieces, trimmed, around one space,
      trimmed once more. */
  lemma FormatLineTwoPieces(a: string, br: string, b: string)
    requires NoBreak(a) && NoBreak(b) && (br == "\n" || br == "\r\n")
    ensures FormatLine(a + br + b) == Trim(Trim(a) + " " + Trim(b))
  {
    LinesBreak(a, br, b);
    assert Lines(a + br + b) == [a, b];
    assert TrimEach([a, b]) == [Trim(a), Trim(b)];
    assert Join([Trim(a), Trim(b)], ' ') == Trim(a) + " " + Trim(b);
  }

  /** One blank in front of or behind a plain line is trimmed away. */
  lemma TrimPadded(x: string)
    requires Plain(x)
    ensures Trim(" " + x) == x && Trim(x + " ") == x
  {
    assert (" " + x)[1..] == x;
    assert (x + " ")[..|x|] == x;
    if |x| > 0 {
      assert (x + " ")[0] == x[0];
    } else {
      assert x + " " == " " && " "[1..] == "";
    }
  }

  /** The first worked line is its two pieces around one space... */
  lemma JoinsPiecesSplit()
    ensures FormatLine(" Buy milk\r\nnow ") == Trim(Trim(" Buy milk") + " " + Trim("now "))
  {
    assert " Buy milk\r\nnow " == " Buy milk" + "\r\n" + "now ";
    FormatLineTwoPieces(" Buy milk", "\r\n", "now ");
  }

  /** ...and each piece loses its blank. */
  lemma JoinsPiecesTrimmed()
    ensures Trim(" Buy milk") == "Buy milk" && Trim("now ") == "now"
  {
    PlainExample();
    TrimPadded("Buy milk");
    TrimPadded("now");
    assert " Buy milk" == " " + "Buy milk" && "now " == "now" + " ";
  }

  /** Worked line: the blanks around the pieces go and the CR LF pair
      becomes one space. */
  lemma FormatLineJoinsPieces()
    ensures FormatLine(" Buy milk\r\nnow ") == "Buy milk now"
  {
    JoinsPiecesSplit();
    JoinsPiecesTrimmed();
    JoinsPiecesJoined();
  }

  lemma JoinsPiecesJoined()
    ensures Trim("Buy milk" + " " + "now") == "Buy milk now"
  {
    PlainExample();
    assert "Buy milk" + " " + "now" == "Buy milk now";
  }

  lemma PlainExample()
    ensures Plain("Buy milk") && Plain("now") && Plain("Buy milk now") && Plain("a  b")
  {
  }

  /** The pieces of the second worked line. */
  lemma EmptyPieceSteps()
    ensures Lines("a\n\nb") == ["a", "", "b"]
  {
    assert "a\n\nb" == "a" + "\n" + ("" + "\n" + "b");
    LinesBreak("a", "\n", "" + "\n" + "b");
    LinesBreak("", "\n", "b");
    assert Lines("b") == ["b"];
  }

  lemma EmptyPieceJoin()
    ensures TrimEach(["a", "", "b"]) == ["a", "", "b"]
    ensures Join(["a", "", "b"], ' ') == "a  b"
  {
    assert Trim("a") == "a" && Trim("") == "" && Trim("b") == "b" by {
      assert Plain("a") && Plain("") && Plain("b");
    }
    assert Join(["a", "", "b"], ' ') == "a" + [' '] + Join(["", "b"], ' ');
    assert ["a", "", "b"][1..] == ["", "b"] && ["", "b"][1..] == ["b"];
  }

  /** Worked line: an empty piece between two breaks leaves two spaces. */
  lemma FormatLineKeepsEmptyPieces()
    ensures FormatLine("a\n\nb") == "a  b"
  {
    EmptyPieceSteps();
    EmptyPieceJoin();
    PlainExample();
    assert FormatLine("a\n\nb") == Trim(Join(TrimEach(Lines("a\n\nb")), ' '));
  }
}
