/** The collapsed description in the Watched screen's details view: the
    sanitised description split on single spaces, its first fifty words
    joined back with single spaces, then "...". The "Read More" toggle is
    shown only when there are more than fifty words. */
module Preview {
  import Sanitize

  const PreviewWords: nat := 50
  const Ellipsis: string := "..."

  /** The index of the first ' ' in `s`, or `|s|`. */
  function IndexOfSpace(s: string): (i: nat)
    ensures i <= |s| && ' ' !in s[..i] && (i < |s| ==> s[i] == ' ')
  {
    if |s| == 0 || s[0] == ' ' then 0
    else
      var i := IndexOfSpace(s[1..]);
      assert s[..i + 1] == [s[0]] + s[1..][..i];
      i + 1
  }

  /** `s.split(" ")`: the pieces between single spaces; two spaces in a row
      give an empty word, and the empty text gives one empty word. */
  function Split(s: string): (words: seq<string>)
    ensures |words| >= 1
    ensures forall w :: w in words ==> ' ' !in w
    decreases |s|
  {
    var i := IndexOfSpace(s);
    if i == |s| then
      assert s[..i] == s;
      [s]
    else [s[..i]] + Split(s[i + 1..])
  }

  /** `words.join(" ")`: the words of a non-empty list that hold no space
      are separated by exactly one space each. */
  function Join(words: seq<string>): (r: string)
    ensures |words| >= 1 && (forall k :: 0 <= k < |words| ==> ' ' !in words[k]) ==>
              CountSpaces(r) == |words| - 1
  {
    if |words| == 0 then ""
    else if |words| == 1 then
      assert ' ' !in words[0] ==> CountSpaces(words[0]) == 0 by {
        if ' ' !in words[0] {
          NoSpaceCountsZero(words[0]);
        }
      }
      words[0]
    else
      var rest := Join(words[1..]);
      assert forall k :: 1 <= k < |words| ==> words[1..][k - 1] == words[k];
      assert ' ' !in words[0] ==> CountSpaces(words[0]) == 0 by {
        if ' ' !in words[0] {
          NoSpaceCountsZero(words[0]);
        }
      }
      CountSpacesAppend(words[0], " " + rest);
      assert (" " + rest)[0] == ' ' && (" " + rest)[1..] == rest;
      assert words[0] + " " + rest == words[0] + (" " + rest);
      words[0] + " " + rest
  }

  function CountSpaces(s: string): nat
  {
    if |s| == 0 then 0 else (if s[0] == ' ' then 1 else 0) + CountSpaces(s[1..])
  }

  function Min(a: nat, b: nat): nat
  {
    if a <= b then a else b
  }

  /** The first `min(50, n)` words of `s` joined by single spaces: a prefix
      of `s` holding one space fewer than the words it keeps. */
  function PreviewBody(s: string): (r: string)
    ensures r <= s && CountSpaces(r) == Min(PreviewWords, |Split(s)|) - 1
  {
    var words := Split(s);
    JoinTakeIsPrefix(s, Min(PreviewWords, |words|));
    Join(words[..Min(PreviewWords, |words|)])
  }

  /** The text shown while the description is collapsed. */
  function Collapsed(s: string): (r: string)
    ensures |r| >= |Ellipsis| && r[|r| - |Ellipsis|..] == Ellipsis
  {
    PreviewBody(s) + Ellipsis
  }

  /** The condition under which the Read More toggle appears: more than
      fifty words, that is, at least fifty spaces. */
  predicate HasReadMore(s: string)
    ensures HasReadMore(s) <==> CountSpaces(s) >= PreviewWords
  {
    SplitLength(s);
    |Split(s)| > PreviewWords
  }

  /** The collapsed view of a stored description and whether it offers
      Read More, both computed on the sanitised text. */
  function CollapsedDescription(description: string): (r: string)
    ensures var t := Sanitize.SanitizeDescription(description);
            && |r| >= |Ellipsis| && r[|r| - |Ellipsis|..] == Ellipsis
            && r[..|r| - |Ellipsis|] <= t
            && (CountSpaces(t) < PreviewWords ==> r == t + Ellipsis)
  {
    var t := Sanitize.SanitizeDescription(description);
    assert CountSpaces(t) < PreviewWords ==> Collapsed(t) == t + Ellipsis by {
      if CountSpaces(t) < PreviewWords {
        ShortTextShownWhole(t);
      }
    }
    assert Collapsed(t)[..|Collapsed(t)| - |Ellipsis|] == PreviewBody(t);
    Collapsed(t)
  }

  predicate ShowsReadMore(description: string)
    ensures ShowsReadMore(description) <==> CountSpaces(Sanitize.SanitizeDescription(description)) >= PreviewWords
  {
    HasReadMore(Sanitize.SanitizeDescription(description))
  }

  lemma {:induction false} CountSpacesAppend(a: string, b: string)
    ensures CountSpaces(a + b) == CountSpaces(a) + CountSpaces(b)
  {
    if |a| > 0 {
      assert (a + b)[0] == a[0];
      assert (a + b)[1..] == a[1..] + b;
      CountSpacesAppend(a[1..], b);
    } else {
      assert a + b == b;
    }
  }

  lemma {:induction false} NoSpaceCountsZero(s: string)
    requires ' ' !in s
    ensures CountSpaces(s) == 0
  {
    if |s| > 0 {
      assert forall k :: 0 <= k < |s[1..]| ==> s[1..][k] == s[k + 1];
      NoSpaceCountsZero(s[1..]);
    }
  }

  /** Joining the pieces of a split restores the text. */
  lemma {:induction false} JoinSplit(s: string)
    ensures Join(Split(s)) == s
    decreases |s|
  {
    var i := IndexOfSpace(s);
    if i < |s| {
      var rest := s[i + 1..];
      JoinSplit(rest);
      var ws := Split(rest);
      assert Split(s) == [s[..i]] + ws;
      JoinCons(s[..i], ws);
      CutAtSpace(s, i);
    }
  }

  /** A text is the part before one of its spaces, the space, and the rest. */
  lemma CutAtSpace(s: string, i: nat)
    requires i < |s| && s[i] == ' '
    ensures s == s[..i] + " " + s[i + 1..]
  {
    assert s == s[..i] + s[i..];
    assert s[i..] == " " + s[i + 1..];
  }

  /** A word put in front of a non-empty list is joined with one space. */
  lemma JoinCons(w: string, ws: seq<string>)
    requires |ws| >= 1
    ensures Join([w] + ws) == w + " " + Join(ws)
  {
    assert ([w] + ws)[1..] == ws;
  }

  /** Splitting a join of space-free words gives the words back. */
  lemma {:induction false} SplitJoin(words: seq<string>)
    requires |words| >= 1 && forall k :: 0 <= k < |words| ==> ' ' !in words[k]
    ensures Split(Join(words)) == words
  {
    var w := words[0];
    if |words| == 1 {
      IndexOfSpaceAbsent(w);
    } else {
      var s := Join(words);
      var rest := Join(words[1..]);
      assert s == w + " " + rest;
      IndexOfSpaceAfterWord(w, rest);
      assert s[..|w|] == w && s[|w| + 1..] == rest;
      SplitJoin(words[1..]);
    }
  }

  lemma IndexOfSpaceAbsent(w: string)
    requires ' ' !in w
    ensures IndexOfSpace(w) == |w|
  {
  }

  lemma IndexOfSpaceAfterWord(w: string, rest: string)
    requires ' ' !in w
    ensures IndexOfSpace(w + " " + rest) == |w|
  {
    var s := w + " " + rest;
    assert s[|w|] == ' ' && s[..|w|] == w;
  }

  /** The word count is one more than the number of spaces. */
  lemma {:induction false} SplitLength(s: string)
    ensures |Split(s)| == CountSpaces(s) + 1
    decreases |s|
  {
    var i := IndexOfSpace(s);
    NoSpaceCountsZero(s[..i]);
    if i < |s| {
      SplitLength(s[i + 1..]);
      assert s == s[..i] + ([' '] + s[i + 1..]);
      CountSpacesAppend(s[..i], [' '] + s[i + 1..]);
      assert ([' '] + s[i + 1..])[1..] == s[i + 1..];
    } else {
      assert s[..i] == s;
    }
  }

  /** The first `k` words joined back are a prefix of the text that holds
      `k - 1` spaces; when words remain, the next character is a space. */
  lemma JoinTakeIsPrefix(s: string, k: nat)
    requires 1 <= k <= |Split(s)|
    ensures var b := Join(Split(s)[..k]);
            b <= s && CountSpaces(b) == k - 1 && (k < |Split(s)| ==> |b| < |s| && s[|b|] == ' ')
  {
    var ws := Split(s);
    assert forall j :: 0 <= j < |ws| ==> ws[j] in ws;
    JoinTakeIsPrefixOfJoin(ws, k);
    JoinSplit(s);
  }

  /** For space-free words, the first `k` joined are a prefix of all of them
      joined, with `k - 1` spaces, and a space follows when words remain. */
  lemma {:induction false} JoinTakeIsPrefixOfJoin(ws: seq<string>, k: nat)
    requires 1 <= k <= |ws| && forall j :: 0 <= j < |ws| ==> ' ' !in ws[j]
    ensures var b := Join(ws[..k]);
            var all := Join(ws);
            b <= all && CountSpaces(b) == k - 1 && (k < |ws| ==> |b| < |all| && all[|b|] == ' ')
  {
    var w := ws[0];
    NoSpaceCountsZero(w);
    if k == 1 {
      assert ws[..k] == [w];
      if |ws| > 1 {
        assert Join(ws) == w + " " + Join(ws[1..]);
      }
    } else {
      var tail := ws[1..];
      assert forall j :: 0 <= j < |tail| ==> tail[j] == ws[j + 1];
      JoinTakeIsPrefixOfJoin(tail, k - 1);
      assert ws[..k] == [w] + tail[..k - 1];
      assert ws == [w] + tail;
      JoinCons(w, tail[..k - 1]);
      JoinCons(w, tail);
      PrefixStep(w, Join(tail), Join(tail[..k - 1]), k, |tail|);
    }
  }

  /** A space-free word, a space and a prefix of `rest` with `k - 2` spaces
      form a prefix of the word, a space and `rest` with `k - 1` spaces; if a
      space follows the prefix of `rest`, one follows the longer prefix. */
  lemma PrefixStep(w: string, rest: string, b': string, k: nat, m: nat)
    requires CountSpaces(w) == 0 && b' <= rest && CountSpaces(b') == k - 2
    requires k - 1 < m ==> |b'| < |rest| && rest[|b'|] == ' '
    ensures var b := w + (" " + b');
            var s := w + (" " + rest);
            && b <= s
            && CountSpaces(b) == k - 1
            && (k < 1 + m ==> |b| < |s| && s[|b|] == ' ')
  {
    PrefixAfterWord(w, rest, b');
    assert w + " " + b' == w + (" " + b');
    CountSpacesAppend(w, " " + b');
    assert (" " + b')[0] == ' ' && (" " + b')[1..] == b';
  }

  /** Putting the same word and a space in front of a prefix and of the
      text it is cut from keeps it a prefix, followed by the same character. */
  lemma PrefixAfterWord(w: string, rest: string, b': string)
    requires b' <= rest
    ensures var b := w + " " + b';
            var s := w + " " + rest;
            && b <= s
            && (|b'| < |rest| ==> |b| < |s| && s[|b|] == rest[|b'|])
  {
    var b := w + " " + b';
    var s := w + " " + rest;
    assert forall j :: 0 <= j < |b| ==> s[j] == b[j] by {
      forall j | 0 <= j < |b|
        ensures s[j] == b[j]
      {
        if j > |w| {
          assert b[j] == b'[j - |w| - 1] && s[j] == rest[j - |w| - 1];
        }
      }
    }
    if |b'| < |rest| {
      assert s[|b|] == rest[|b'|];
    }
  }

  /** Up to fifty words the collapsed text is the whole text plus "...",
      and there is no Read More toggle. */
  lemma ShortTextShownWhole(s: string)
    requires CountSpaces(s) < PreviewWords
    ensures Collapsed(s) == s + Ellipsis && !HasReadMore(s)
  {
    SplitLength(s);
    JoinSplit(s);
    assert Split(s)[..|Split(s)|] == Split(s);
  }

  /** With more than fifty words the collapsed text is the text cut just
      before its fiftieth space, plus "...", and the Read More toggle
      appears; the toggle appears exactly when there are at least fifty
      spaces. */
  lemma LongTextCutAtFiftiethSpace(s: string)
    ensures HasReadMore(s) <==> CountSpaces(s) >= PreviewWords
    ensures HasReadMore(s) ==>
              var b := PreviewBody(s);
              Collapsed(s) == b + Ellipsis && b < s && CountSpaces(b) == PreviewWords - 1 && s[|b|] == ' '
  {
    SplitLength(s);
    if HasReadMore(s) {
      JoinTakeIsPrefix(s, PreviewWords);
    }
  }

  /** The collapsed body is always a prefix of the text, and splitting it
      again gives exactly the words kept. */
  lemma PreviewBodyKeepsWords(s: string)
    ensures PreviewBody(s) <= s
    ensures Split(PreviewBody(s)) == Split(s)[..Min(PreviewWords, |Split(s)|)]
  {
    var words := Split(s);
    var kept := words[..Min(PreviewWords, |words|)];
    JoinTakeIsPrefix(s, |kept|);
    assert forall k :: 0 <= k < |kept| ==> kept[k] in words;
    SplitJoin(kept);
  }

  /** For a stored description: Read More appears iff the sanitised text
      has at least fifty spaces; otherwise the collapsed view is the whole
      sanitised text plus "...". Either way the collapsed body is a prefix
      of the sanitised text. */
  lemma DescriptionPreview(description: string)
    ensures var t := Sanitize.SanitizeDescription(description);
            && (ShowsReadMore(description) <==> CountSpaces(t) >= PreviewWords)
            && (!ShowsReadMore(description) ==> CollapsedDescription(description) == t + Ellipsis)
            && PreviewBody(t) <= t
  {
    var t := Sanitize.SanitizeDescription(description);
    LongTextCutAtFiftiethSpace(t);
    if CountSpaces(t) < PreviewWords {
      ShortTextShownWhole(t);
    }
    PreviewBodyKeepsWords(t);
  }
}
