/** `sanitizeDescription` on the Watched screen: three global regular
    expression replacements applied in turn,
      1. `/<br\s*\/?>/gi`      each line break tag becomes "\n";
      2. `/<\/?i>/gi`          italic tags are removed;
      3. `/<\/?[^>]+(>|$)/g`   any other tag is removed, an unclosed one up
                               to the end of the text.
    A global replacement scans left to right, replaces the match found at
    the scan position and resumes after it, or copies one character and
    moves on when there is none. For these three expressions the
    backtracking matcher has at most one way to match at a position, and
    `Match` computes it directly; `Matches` states the expression
    declaratively, and `MatchSound` and `MatchComplete` tie the two
    together. */
module Sanitize {
  import opened Wrappers

  /** JavaScript's `\s`: its WhiteSpace and LineTerminator characters. None
      of them is '<', '/' or '>', so in `<br\s*\/?>` the space run and the
      characters after it never compete for the same character. */
  predicate IsSpace(c: char)
    ensures IsSpace(c) ==> c != '<' && c != '/' && c != '>'
  {
    || c == '\t' || c == '\n' || c == '\U{B}' || c == '\U{C}' || c == '\r' || c == ' '
    || c == '\U{A0}' || c == '\U{1680}' || ('\U{2000}' <= c <= '\U{200A}')
    || c == '\U{2028}' || c == '\U{2029}' || c == '\U{202F}' || c == '\U{205F}'
    || c == '\U{3000}' || c == '\U{FEFF}'
  }

  /** Case-insensitive letters of the first two expressions. Without the
      unicode flag, no non-ASCII character folds onto an ASCII one, so each
      letter matches its two ASCII cases only. */
  predicate IsB(c: char) { c == 'b' || c == 'B' }
  predicate IsR(c: char) { c == 'r' || c == 'R' }
  predicate IsI(c: char) { c == 'i' || c == 'I' }

  ghost predicate AllSpace(u: string)
  {
    forall k :: 0 <= k < |u| ==> IsSpace(u[k])
  }

  /** `<br\s*\/?>` matches `t` exactly. */
  ghost predicate BrTag(t: string)
  {
    && |t| >= 4 && t[0] == '<' && IsB(t[1]) && IsR(t[2]) && t[|t| - 1] == '>'
    && (AllSpace(t[3..|t| - 1]) || (|t| >= 5 && t[|t| - 2] == '/' && AllSpace(t[3..|t| - 2])))
  }

  /** `<\/?i>` matches `t` exactly, ignoring case. */
  ghost predicate ItalicTag(t: string)
  {
    t in {"<i>", "<I>", "</i>", "</I>"}
  }

  /** `<\/?[^>]+(>|$)` matches `t` when `rest` follows it. The optional slash
      is itself a character other than '>', so the expression accepts a '<',
      a non-empty run of characters other than '>', and then either a '>' or
      the end of the text. */
  ghost predicate AnyTag(t: string, rest: string)
  {
    && |t| >= 2 && t[0] == '<'
    && ((|t| >= 3 && t[|t| - 1] == '>' && '>' !in t[1..|t| - 1])
        || (rest == [] && '>' !in t[1..]))
  }

  /** The three expressions, in the order they are applied. */
  datatype Pattern = LineBreak | Italic | Tag

  function Replacement(p: Pattern): string
  {
    if p == LineBreak then "\n" else ""
  }

  /** The expression `p` matches `t` when `rest` follows it. */
  ghost predicate Matches(p: Pattern, t: string, rest: string)
  {
    match p
    case LineBreak => BrTag(t)
    case Italic => ItalicTag(t)
    case Tag => AnyTag(t, rest)
  }

  /** The first index at or after `i` that does not hold a `\s` character. */
  function SpacesEnd(s: string, i: nat): (j: nat)
    requires i <= |s|
    ensures i <= j <= |s|
    ensures forall k :: i <= k < j ==> IsSpace(s[k])
    ensures j == |s| || !IsSpace(s[j])
    decreases |s| - i
  {
    if i < |s| && IsSpace(s[i]) then SpacesEnd(s, i + 1) else i
  }

  /** The first index at or after `i` that holds a '>', or `|s|`. */
  function GtFrom(s: string, i: nat): (j: nat)
    requires i <= |s|
    ensures i <= j <= |s|
    ensures forall k :: i <= k < j ==> s[k] != '>'
    ensures j == |s| || s[j] == '>'
    decreases |s| - i
  {
    if i < |s| && s[i] != '>' then GtFrom(s, i + 1) else i
  }

  /** The length of the match of `p` at the start of `s`, if any. Every
      match opens with a '<' that is followed by something other than
      '>'. */
  function Match(p: Pattern, s: string): (m: Option<nat>)
    ensures m.Some? ==> |Replacement(p)| <= 1 < m.value <= |s| && s[0] == '<' && s[1] != '>'
  {
    match p
    case LineBreak =>
      if |s| >= 3 && s[0] == '<' && IsB(s[1]) && IsR(s[2]) then
        var j := SpacesEnd(s, 3);
        var k := if j < |s| && s[j] == '/' then j + 1 else j;
        if k < |s| && s[k] == '>' then Some(k + 1) else None
      else None
    case Italic =>
      if |s| >= 3 && s[0] == '<' && IsI(s[1]) && s[2] == '>' then Some(3)
      else if |s| >= 4 && s[0] == '<' && s[1] == '/' && IsI(s[2]) && s[3] == '>' then Some(4)
      else None
    case Tag =>
      if |s| >= 2 && s[0] == '<' && s[1] != '>' then
        var j := GtFrom(s, 1);
        Some(if j < |s| then j + 1 else j)
      else None
  }

  /** What `Match` finds is a match of the expression. */
  lemma MatchSound(p: Pattern, s: string)
    requires Match(p, s).Some?
    ensures Matches(p, s[..Match(p, s).value], s[Match(p, s).value..])
  {
    var n := Match(p, s).value;
    var t := s[..n];
    match p
    case LineBreak =>
      var j := SpacesEnd(s, 3);
      if j < |s| && s[j] == '/' {
        assert n == j + 2 && |t| == n;
        assert t[3..|t| - 2] == t[3..j] == s[3..j];
        assert t[|t| - 2] == s[j] == '/';
      } else {
        assert n == j + 1;
        assert t[3..|t| - 1] == s[3..j];
      }
    case Italic =>
      if n == 3 {
        assert t == [s[0], s[1], s[2]];
      } else {
        assert t == [s[0], s[1], s[2], s[3]];
      }
    case Tag =>
      var j := GtFrom(s, 1);
      if j < |s| {
        assert t[1..|t| - 1] == s[1..j];
      } else {
        assert t[1..] == s[1..];
      }
  }

  /** Every match of the expression at the start of `s` is the one `Match`
      finds: the matcher misses nothing. */
  lemma MatchComplete(p: Pattern, s: string, n: nat)
    requires n <= |s| && Matches(p, s[..n], s[n..])
    ensures Match(p, s) == Some(n)
  {
    var t := s[..n];
    match p
    case LineBreak =>
      var j := SpacesEnd(s, 3);
      if AllSpace(t[3..|t| - 1]) {
        assert forall k :: 3 <= k < n - 1 ==> IsSpace(s[k]) by {
          forall k | 3 <= k < n - 1 ensures IsSpace(s[k]) {
            assert s[k] == t[3..|t| - 1][k - 3];
          }
        }
        assert j == n - 1;
      } else {
        assert forall k :: 3 <= k < n - 2 ==> IsSpace(s[k]) by {
          forall k | 3 <= k < n - 2 ensures IsSpace(s[k]) {
            assert s[k] == t[3..|t| - 2][k - 3];
          }
        }
        assert j == n - 2;
      }
    case Italic =>
      assert t == "<i>" || t == "<I>" || t == "</i>" || t == "</I>";
    case Tag =>
      var j := GtFrom(s, 1);
      if |t| >= 3 && t[|t| - 1] == '>' && '>' !in t[1..|t| - 1] {
        assert t[1..|t| - 1][0] == s[1];
        assert forall k :: 1 <= k < n - 1 ==> s[k] != '>' by {
          forall k | 1 <= k < n - 1 ensures s[k] != '>' {
            assert s[k] == t[1..|t| - 1][k - 1];
          }
        }
        assert j == n - 1;
      } else {
        assert n == |s|;
        assert t[1..][0] == s[1];
        assert forall k :: 1 <= k < n ==> s[k] != '>' by {
          forall k | 1 <= k < n ensures s[k] != '>' {
            assert s[k] == t[1..][k - 1];
          }
        }
        assert j == n;
      }
  }

  /** The global replacement of `p` by its replacement text. */
  function ReplaceAll(p: Pattern, s: string): (r: string)
    ensures |r| <= |s|
    decreases |s|
  {
    if |s| == 0 then []
    else
      match Match(p, s)
      case Some(n) => Replacement(p) + ReplaceAll(p, s[n..])
      case None => [s[0]] + ReplaceAll(p, s[1..])
  }

  /** Every '<' is the last character or is directly followed by '>': no tag
      is open anywhere. */
  ghost predicate NoOpenTag(s: string)
  {
    forall i :: 0 <= i < |s| && s[i] == '<' ==> i == |s| - 1 || s[i + 1] == '>'
  }

  /** `sanitizeDescription`. */
  function SanitizeDescription(description: string): (r: string)
    ensures |r| <= |description|
  {
    ReplaceAll(Tag, ReplaceAll(Italic, ReplaceAll(LineBreak, description)))
  }

  /** Each match of the expression becomes its replacement text exactly once,
      and scanning resumes right after it: in particular every line break
      tag, in either case and with any `\s` run and optional slash, becomes
      one "\n". */
  lemma ReplaceMatch(p: Pattern, t: string, rest: string)
    requires Matches(p, t, rest)
    ensures ReplaceAll(p, t + rest) == Replacement(p) + ReplaceAll(p, rest)
  {
    var s := t + rest;
    assert s[..|t|] == t && s[|t|..] == rest;
    MatchComplete(p, s, |t|);
  }

  /** A `\s` run ends where `\s` text ends: text after a '<' is never read. */
  lemma {:induction false} SpacesEndLocal(x: string, y: string, i: nat)
    requires i <= |x| && |y| >= 1 && y[0] == '<'
    ensures SpacesEnd(x + y, i) == SpacesEnd(x, i)
    decreases |x| - i
  {
    if i < |x| {
      assert (x + y)[i] == x[i];
      SpacesEndLocal(x, y, i + 1);
    } else {
      assert (x + y)[i] == '<';
    }
  }

  /** A line break match holds only one '<', at its start, so the matcher
      never reads past a non-empty `x` into text `y` that starts with '<'. */
  lemma MatchBreakLocal(x: string, y: string)
    requires |x| >= 1 && |y| >= 1 && y[0] == '<'
    ensures Match(LineBreak, x + y) == Match(LineBreak, x)
  {
    var s := x + y;
    assert s[0] == x[0];
    assert s[|x|] == '<';
    if |x| >= 3 {
      assert s[1] == x[1] && s[2] == x[2];
      SpacesEndLocal(x, y, 3);
      var j := SpacesEnd(x, 3);
      if j < |x| {
        assert s[j] == x[j];
        if x[j] == '/' && j + 1 < |x| {
          assert s[j + 1] == x[j + 1];
        }
      }
    } else if |x| == 2 {
      assert s[1] == x[1];
    }
  }

  /** The line break pass splits at any '<': the text before it and the
      text from it on are scanned on their own. */
  lemma {:induction false} BreakPassSplitsAtLt(x: string, y: string)
    requires |y| >= 1 && y[0] == '<'
    ensures ReplaceAll(LineBreak, x + y) == ReplaceAll(LineBreak, x) + ReplaceAll(LineBreak, y)
    decreases |x|
  {
    if |x| == 0 {
      assert x + y == y;
    } else {
      MatchBreakLocal(x, y);
      match Match(LineBreak, x)
      case Some(n) =>
        DropFromFront(x, y, n);
        BreakPassSplitsAtLt(x[n..], y);
      case None =>
        assert (x + y)[0] == x[0];
        DropFromFront(x, y, 1);
        BreakPassSplitsAtLt(x[1..], y);
    }
  }

  /** Dropping a front part of `x` from `x + y` leaves the rest of `x`, then `y`. */
  lemma DropFromFront(x: string, y: string, n: nat)
    requires n <= |x|
    ensures (x + y)[n..] == x[n..] + y
  {
  }

  /** Every line break tag, wherever it stands, becomes exactly one "\n":
      the text before it and the text after it are scanned on their own. */
  lemma BreakAnywhere(before: string, t: string, rest: string)
    requires BrTag(t)
    ensures ReplaceAll(LineBreak, before + t + rest)
            == ReplaceAll(LineBreak, before) + "\n" + ReplaceAll(LineBreak, rest)
  {
    assert before + t + rest == before + (t + rest);
    assert (t + rest)[0] == t[0] == '<';
    BreakPassSplitsAtLt(before, t + rest);
    ReplaceMatch(LineBreak, t, rest);
  }

  /** A character other than '<' is copied as it is. */
  lemma ReplaceCopies(p: Pattern, c: char, rest: string)
    requires c != '<'
    ensures ReplaceAll(p, [c] + rest) == [c] + ReplaceAll(p, rest)
  {
    assert ([c] + rest)[1..] == rest;
  }

  /** Text without an open tag holds no match of any of the three
      expressions, so every pass returns it unchanged. */
  lemma {:induction false} ReplaceKeepsClosed(p: Pattern, s: string)
    requires NoOpenTag(s)
    ensures ReplaceAll(p, s) == s
  {
    if |s| > 0 {
      assert Match(p, s) == None;
      assert NoOpenTag(s[1..]) by {
        forall i | 0 <= i < |s[1..]| && s[1..][i] == '<'
          ensures i == |s[1..]| - 1 || s[1..][i + 1] == '>'
        {
          assert s[i + 1] == '<';
        }
      }
      ReplaceKeepsClosed(p, s[1..]);
      assert s == [s[0]] + s[1..];
    }
  }

  /** The generic tag pass leaves no tag open. */
  lemma {:induction false} TagPassClosesTags(s: string)
    ensures NoOpenTag(ReplaceAll(Tag, s))
  {
    if |s| > 0 {
      match Match(Tag, s)
      case Some(n) =>
        TagPassClosesTags(s[n..]);
      case None =>
        var rest := ReplaceAll(Tag, s[1..]);
        TagPassClosesTags(s[1..]);
        var r := [s[0]] + rest;
        if s[0] == '<' && |s| > 1 {
          assert s[1] == '>';
          assert Match(Tag, s[1..]) == None;
          assert rest[0] == '>';
        }
        forall i | 0 <= i < |r| && r[i] == '<'
          ensures i == |r| - 1 || r[i + 1] == '>'
        {
          if i > 0 {
            assert rest[i - 1] == '<';
          } else if |s| == 1 {
            assert rest == [];
          }
        }
    }
  }

  /** A sanitised description has no open tag. */
  lemma SanitizedHasNoOpenTag(description: string)
    ensures NoOpenTag(SanitizeDescription(description))
  {
    TagPassClosesTags(ReplaceAll(Italic, ReplaceAll(LineBreak, description)));
  }

  /** Text with no '<' passes through unchanged. */
  lemma SanitizeWithoutTags(description: string)
    requires '<' !in description
    ensures SanitizeDescription(description) == description
  {
    ReplaceKeepsClosed(LineBreak, description);
    ReplaceKeepsClosed(Italic, description);
    ReplaceKeepsClosed(Tag, description);
  }

  /** Sanitising twice is sanitising once. */
  lemma SanitizeIdempotent(description: string)
    ensures SanitizeDescription(SanitizeDescription(description)) == SanitizeDescription(description)
  {
    var t := SanitizeDescription(description);
    SanitizedHasNoOpenTag(description);
    ReplaceKeepsClosed(LineBreak, t);
    ReplaceKeepsClosed(Italic, t);
    ReplaceKeepsClosed(Tag, t);
  }

  /** An unclosed tag is removed up to the end of the text: text free of
      '<' followed by "<" and a non-empty run without '>' keeps only the
      text before the '<' (so "ab<c" becomes "ab"). */
  lemma {:induction false} UnclosedTagRunsToEnd(before: string, u: string)
    requires '<' !in before && |u| >= 1 && '>' !in u
    ensures ReplaceAll(Tag, before + "<" + u) == before
  {
    if |before| == 0 {
      var t := "<" + u;
      assert before + "<" + u == t + [];
      assert t[1..] == u;
      ReplaceMatch(Tag, t, []);
    } else {
      assert before + "<" + u == [before[0]] + (before[1..] + "<" + u);
      ReplaceCopies(Tag, before[0], before[1..] + "<" + u);
      UnclosedTagRunsToEnd(before[1..], u);
    }
  }
}
