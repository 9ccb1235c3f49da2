/**
 * The ECMAScript string operations the prompt sanitiser is built from
 * (`trim`, `toLowerCase`, `split`, `join`, `includes` and a global
 * single-character `replace`), restated over `seq<char>`.
 */
module JsStrings {

  /** The WhiteSpace and LineTerminator code points of ECMAScript: what
      `String.prototype.trim` strips and what the regular-expression class
      `\s` matches. */
  predicate IsWhitespace(c: char) {
    || c == '\t' || c == '\n' || c == '\U{000B}' || c == '\U{000C}' || c == '\r'
    || c == ' ' || c == '\U{00A0}' || c == '\U{1680}'
    || ('\U{2000}' <= c && c <= '\U{200A}')
    || c == '\U{2028}' || c == '\U{2029}' || c == '\U{202F}' || c == '\U{205F}'
    || c == '\U{3000}' || c == '\U{FEFF}'
  }

  predicate NoWhitespace(s: string) {
    forall i :: 0 <= i < |s| ==> !IsWhitespace(s[i])
  }

  predicate AllWhitespace(s: string) {
    forall i :: 0 <= i < |s| ==> IsWhitespace(s[i])
  }

  /** Neither end of `s` is whitespace. */
  predicate IsTrimmed(s: string) {
    s == [] || (!IsWhitespace(s[0]) && !IsWhitespace(s[|s| - 1]))
  }

  /** `s` begins with `p`. */
  predicate HasPrefix(s: string, p: string) {
    |p| <= |s| && s[..|p|] == p
  }

  /** `p` occurs in `s` starting at index `i`. */
  ghost predicate OccursAt(s: string, p: string, i: int) {
    0 <= i && i + |p| <= |s| && s[i..i + |p|] == p
  }

  /** Leading whitespace removed: what is left does not start with
      whitespace (`TrimStartCut` says what was cut). */
  function TrimStart(s: string): (r: string)
    ensures |r| <= |s|
    ensures r == [] || !IsWhitespace(r[0])
  {
    if s != [] && IsWhitespace(s[0]) then TrimStart(s[1..]) else s
  }

  /** `TrimStart` keeps a suffix and cuts only whitespace. */
  lemma {:induction false} TrimStartCut(s: string)
    ensures TrimStart(s) == s[|s| - |TrimStart(s)|..]
    ensures AllWhitespace(s[..|s| - |TrimStart(s)|])
    decreases |s|
  {
    if s != [] && IsWhitespace(s[0]) {
      TrimStartCut(s[1..]);
      assert s[1..][..|s| - 1 - |TrimStart(s)|] == s[1..|s| - |TrimStart(s)|];
    }
  }

  /** Trailing whitespace removed, symmetric to `TrimStart`. */
  function TrimEnd(s: string): (r: string)
    ensures |r| <= |s|
    ensures r == [] || !IsWhitespace(r[|r| - 1])
  {
    if s != [] && IsWhitespace(s[|s| - 1]) then TrimEnd(s[..|s| - 1]) else s
  }

  /** `TrimEnd` keeps a prefix and cuts only whitespace. */
  lemma {:induction false} TrimEndCut(s: string)
    ensures TrimEnd(s) == s[..|TrimEnd(s)|]
    ensures AllWhitespace(s[|TrimEnd(s)|..])
    decreases |s|
  {
    if s != [] && IsWhitespace(s[|s| - 1]) {
      TrimEndCut(s[..|s| - 1]);
    }
  }

  /** `String.prototype.trim`. */
  function Trim(s: string): (r: string)
    ensures IsTrimmed(r)
    ensures |r| <= |s|
    ensures IsTrimmed(s) ==> r == s
  {
    TrimEndCut(TrimStart(s));
    TrimEnd(TrimStart(s))
  }

  /** `Trim` keeps a contiguous piece of its input. */
  lemma TrimKeepsChars(s: string)
    ensures forall c :: c in Trim(s) ==> c in s
  {
    TrimStartCut(s);
    TrimEndCut(TrimStart(s));
  }

  /** `toLowerCase` restricted to ASCII letters. */
  function LowerChar(c: char): (l: char)
    ensures 'A' <= c <= 'Z' ==> l as int == c as int + 32
    ensures !('A' <= c <= 'Z') ==> l == c
  {
    if 'A' <= c <= 'Z' then (c as int + 32) as char else c
  }

  /** `String.prototype.toLowerCase`, ASCII letters only. */
  function Lower(s: string): (r: string)
    ensures |r| == |s|
    ensures forall i :: 0 <= i < |s| ==> r[i] == LowerChar(s[i])
  {
    if s == [] then [] else [LowerChar(s[0])] + Lower(s[1..])
  }

  /** Index of the first occurrence of `c`. */
  function IndexOf(s: string, c: char): (i: nat)
    requires c in s
    ensures i < |s| && s[i] == c
    ensures forall k :: 0 <= k < i ==> s[k] != c
  {
    if s[0] == c then 0
    else
      IndexOf(s[1..], c) + 1
  }

  /** Index of the first whitespace character. */
  function FirstWhitespace(s: string): (i: nat)
    requires !NoWhitespace(s)
    ensures i < |s| && IsWhitespace(s[i])
    ensures forall k :: 0 <= k < i ==> !IsWhitespace(s[k])
  {
    if IsWhitespace(s[0]) then 0
    else
      FirstWhitespace(s[1..]) + 1
  }

  /** `Array.prototype.join`. */
  function Join(parts: seq<string>, sep: string): string {
    if |parts| == 0 then []
    else if |parts| == 1 then parts[0]
    else parts[0] + sep + Join(parts[1..], sep)
  }

  /** `String.prototype.split` on a single character: the pieces between
      the separators, which joined back with the separator give `s`. */
  function Split(s: string, sep: char): (parts: seq<string>)
    ensures |parts| >= 1
    ensures |parts| == 1 <==> sep !in s
    ensures forall i :: 0 <= i < |parts| ==> sep !in parts[i]
    ensures Join(parts, [sep]) == s
    decreases |s|
  {
    if sep !in s then [s]
    else
      var i := IndexOf(s, sep);
      var rest := Split(s[i + 1..], sep);
      assert ([s[..i]] + rest)[1..] == rest;
      assert s == s[..i] + [sep] + s[i + 1..];
      [s[..i]] + rest
  }

  /** `split(/\s+/)`: the pieces between maximal runs of whitespace. A
      leading (trailing) run yields an empty first (last) piece; no other
      piece is empty. */
  function SplitOnWhitespace(s: string): (parts: seq<string>)
    ensures |parts| >= 1
    ensures forall i :: 0 <= i < |parts| ==> NoWhitespace(parts[i])
    ensures forall i :: 0 < i < |parts| - 1 ==> parts[i] != []
    ensures s != [] && !IsWhitespace(s[0]) ==> parts[0] != []
    decreases |s|
  {
    if NoWhitespace(s) then [s]
    else
      var i := FirstWhitespace(s);
      var after := TrimStart(s[i..]);
      assert s[i..][0] == s[i];
      assert |after| < |s[i..]|;
      var rest := SplitOnWhitespace(after);
      [s[..i]] + rest
  }

  /** `includes`: whether `p` occurs anywhere in `s`. */
  function Contains(s: string, p: string): (b: bool)
    ensures b <==> exists i :: OccursAt(s, p, i)
  {
    if HasPrefix(s, p) then
      assert OccursAt(s, p, 0);
      true
    else if s == [] then
      assert forall i :: !OccursAt(s, p, i);
      false
    else
      var b := Contains(s[1..], p);
      assert forall i :: OccursAt(s[1..], p, i) <==> OccursAt(s, p, i + 1) by {
        forall i ensures OccursAt(s[1..], p, i) <==> OccursAt(s, p, i + 1) {
          if 0 <= i && i + |p| <= |s| - 1 {
            assert s[1..][i..i + |p|] == s[i + 1..i + 1 + |p|];
          }
        }
      }
      assert b ==> exists i :: OccursAt(s, p, i) by {
        if b {
          var i :| OccursAt(s[1..], p, i);
          assert OccursAt(s, p, i + 1);
        }
      }
      assert (exists i :: OccursAt(s, p, i)) ==> b by {
        if exists i :: OccursAt(s, p, i) {
          var i :| OccursAt(s, p, i);
          assert i != 0;
          assert OccursAt(s[1..], p, i - 1);
        }
      }
      b
  }

  /** `replace(/c/g, rep)`: every `c` becomes `rep`, every other character
      is kept; nothing in the result comes from anywhere else. */
  function ReplaceAll(s: string, c: char, rep: string): (r: string)
    ensures c !in s ==> r == s
    ensures forall x :: x in r ==> x in rep || (x in s && x != c)
  {
    if s == [] then []
    else (if s[0] == c then rep else [s[0]]) + ReplaceAll(s[1..], c, rep)
  }

  /** Replacement works character by character, so it distributes over
      concatenation. */
  lemma {:induction false} ReplaceAllAppend(a: string, b: string, c: char, rep: string)
    ensures ReplaceAll(a + b, c, rep) == ReplaceAll(a, c, rep) + ReplaceAll(b, c, rep)
    decreases |a|
  {
    if a == [] {
      assert a + b == b;
    } else {
      assert (a + b)[0] == a[0];
      assert (a + b)[1..] == a[1..] + b;
      ReplaceAllAppend(a[1..], b, c, rep);
    }
  }

  /** Lower-casing twice is lower-casing once. */
  lemma LowerIdempotent(s: string)
    ensures Lower(Lower(s)) == Lower(s)
  {
  }

  /** Lower-casing touches letters only, so it keeps whitespace where it
      was and never creates or removes a punctuation character. */
  lemma LowerKeepsNonLetters(s: string)
    ensures IsTrimmed(s) ==> IsTrimmed(Lower(s))
    ensures forall c :: !('a' <= c <= 'z') && !('A' <= c <= 'Z') ==> (c in Lower(s) <==> c in s)
  {
    var l := Lower(s);
    forall c | !('a' <= c <= 'z') && !('A' <= c <= 'Z')
      ensures c in l <==> c in s
    {
      if c in l {
        var i :| 0 <= i < |l| && l[i] == c;
        assert s[i] == c;
      }
      if c in s {
        var i :| 0 <= i < |s| && s[i] == c;
        assert l[i] == c;
      }
    }
  }

  /** A trailing space after a trimmed string is what `Trim` removes. */
  lemma TrimDropsTrailingSpace(t: string)
    requires t != [] && IsTrimmed(t)
    ensures Trim(t + " ") == t
  {
    var u := t + " ";
    assert u[0] == t[0];
    assert TrimStart(u) == u;
    assert u[..|u| - 1] == t;
    assert TrimEnd(u) == TrimEnd(t);
  }

  /** A string of whitespace trims to nothing. */
  lemma TrimWhitespace(w: string)
    requires AllWhitespace(w)
    ensures Trim(w) == []
  {
    TrimIgnoresLeadingWhitespace(w, []);
    assert w + [] == w;
  }

  /** Leading whitespace in front of `s` does not change `Trim`. */
  lemma {:induction false} TrimIgnoresLeadingWhitespace(w: string, s: string)
    requires AllWhitespace(w)
    ensures Trim(w + s) == Trim(s)
    decreases |w|
  {
    if w != [] {
      assert (w + s)[0] == w[0];
      assert (w + s)[1..] == w[1..] + s;
      TrimIgnoresLeadingWhitespace(w[1..], s);
    } else {
      assert w + s == s;
    }
  }

  /** A string without the separator joined to the rest splits back into
      itself followed by the pieces of the rest. */
  lemma SplitAtSeparator(x: string, sep: char, y: string)
    requires sep !in x
    ensures Split(x + [sep] + y, sep) == [x] + Split(y, sep)
  {
    var s := x + [sep] + y;
    assert s[|x|] == sep;
    var i := IndexOf(s, sep);
    assert i == |x|;
    assert s[..i] == x;
    assert s[i + 1..] == y;
  }

  /** The first piece of a split is the text before the first separator,
      and the remaining pieces joined back are the text after it. */
  lemma SplitAtFirst(s: string, sep: char)
    requires sep in s
    ensures Split(s, sep)[0] == s[..IndexOf(s, sep)]
    ensures Join(Split(s, sep)[1..], [sep]) == s[IndexOf(s, sep) + 1..]
  {
    var i := IndexOf(s, sep);
    var rest := Split(s[i + 1..], sep);
    assert Split(s, sep) == [s[..i]] + rest;
    assert Split(s, sep)[1..] == rest;
  }

  /** A token without whitespace, a single space and a string that does
      not start with whitespace split into the token and the pieces of that
      string. */
  lemma {:induction false} SplitOnWhitespaceAtSpace(t: string, tail: string)
    requires t != [] && NoWhitespace(t)
    requires tail == [] || !IsWhitespace(tail[0])
    ensures SplitOnWhitespace(t + " " + tail) == [t] + SplitOnWhitespace(tail)
  {
    var s := t + " " + tail;
    assert s[|t|] == ' ';
    assert !NoWhitespace(s);
    var i := FirstWhitespace(s);
    assert i == |t| by {
      assert forall k :: 0 <= k < |t| ==> s[k] == t[k];
    }
    assert s[..i] == t;
    assert s[i..] == " " + tail;
    assert TrimStart(tail) == tail;
    assert TrimStart(" " + tail) == tail by {
      assert (" " + tail)[1..] == tail;
    }
    assert SplitOnWhitespace(s) == [s[..i]] + SplitOnWhitespace(TrimStart(s[i..]));
  }

  /** Tokens without whitespace, joined with single spaces, split back on
      whitespace runs into the same tokens. */
  lemma {:induction false} SplitOnWhitespaceJoin(tokens: seq<string>)
    requires |tokens| >= 1
    requires forall i :: 0 <= i < |tokens| ==> tokens[i] != [] && NoWhitespace(tokens[i])
    ensures SplitOnWhitespace(Join(tokens, " ")) == tokens
    decreases |tokens|
  {
    if |tokens| > 1 {
      var rest := tokens[1..];
      JoinStartsWithFirst(rest, " ");
      assert Join(rest, " ")[0] == rest[0][0];
      SplitOnWhitespaceAtSpace(tokens[0], Join(rest, " "));
      SplitOnWhitespaceJoin(rest);
    }
  }

  /** The pieces with the separators `ws` put back between them:
      `parts[0] + ws[0] + parts[1] + … + parts[|parts| - 1]`. */
  function Weave(parts: seq<string>, ws: seq<string>): string
    requires |parts| >= 1 && |ws| == |parts| - 1
    decreases |parts|
  {
    if |parts| == 1 then parts[0] else parts[0] + ws[0] + Weave(parts[1..], ws[1..])
  }

  /** `ws` are separators a whitespace split can have cut out: each a
      non-empty run of whitespace. */
  predicate AreWhitespaceRuns(ws: seq<string>) {
    forall j :: 0 <= j < |ws| ==> ws[j] != [] && AllWhitespace(ws[j])
  }

  /** The whitespace runs `split(/\s+/)` cuts out of `s`, in order. */
  function WhitespaceRuns(s: string): seq<string>
    decreases |s|
  {
    if NoWhitespace(s) then []
    else
      var i := FirstWhitespace(s);
      var tail := s[i..];
      var after := TrimStart(tail);
      assert tail[0] == s[i];
      assert |after| < |tail|;
      [tail[..|tail| - |after|]] + WhitespaceRuns(after)
  }

  /** The pieces of `split(/\s+/)` are the input itself cut at its
      whitespace runs: there is one run fewer than pieces, each a non-empty
      run of whitespace, and putting them back between the pieces gives
      the input. */
  lemma {:induction false} SplitOnWhitespaceRuns(s: string)
    ensures |WhitespaceRuns(s)| == |SplitOnWhitespace(s)| - 1
    ensures AreWhitespaceRuns(WhitespaceRuns(s))
    ensures s == Weave(SplitOnWhitespace(s), WhitespaceRuns(s))
    decreases |s|
  {
    if !NoWhitespace(s) {
      var i := FirstWhitespace(s);
      var tail := s[i..];
      var after := TrimStart(tail);
      assert tail[0] == s[i];
      LeadingRun(tail);
      var run := tail[..|tail| - |after|];
      assert s == s[..i] + run + after;
      SplitOnWhitespaceRuns(after);
      WeaveStep(s[..i], run, SplitOnWhitespace(after), WhitespaceRuns(after));
    }
  }

  /** The same, stated without naming the runs. With the pieces free of
      whitespace and only the end pieces possibly empty, this fixes what
      `split(/\s+/)` returns for every input. */
  lemma SplitOnWhitespaceWeaves(s: string)
    ensures var parts := SplitOnWhitespace(s);
      exists ws :: |ws| == |parts| - 1 && AreWhitespaceRuns(ws) && s == Weave(parts, ws)
  {
    SplitOnWhitespaceRuns(s);
  }

  /** A string that starts with whitespace is a non-empty whitespace run
      followed by what `TrimStart` keeps. */
  lemma LeadingRun(t: string)
    requires t != [] && IsWhitespace(t[0])
    ensures var n := |t| - |TrimStart(t)|;
      && 0 < n && AllWhitespace(t[..n]) && t == t[..n] + TrimStart(t)
  {
    TrimStartCut(t);
  }

  /** One more piece and run in front of a weave. */
  lemma WeaveStep(head: string, run: string, rest: seq<string>, ws: seq<string>)
    requires |rest| >= 1 && |ws| == |rest| - 1
    requires run != [] && AllWhitespace(run) && AreWhitespaceRuns(ws)
    ensures |[run] + ws| == |[head] + rest| - 1
    ensures AreWhitespaceRuns([run] + ws)
    ensures Weave([head] + rest, [run] + ws) == head + run + Weave(rest, ws)
  {
    assert ([head] + rest)[1..] == rest;
    assert ([run] + ws)[1..] == ws;
    forall j | 0 <= j < |[run] + ws|
      ensures ([run] + ws)[j] != [] && AllWhitespace(([run] + ws)[j])
    {
      if j > 0 {
        assert ([run] + ws)[j] == ws[j - 1];
      }
    }
  }

  /** A join of pieces begins with the first piece. */
  lemma JoinStartsWithFirst(parts: seq<string>, sep: string)
    requires |parts| >= 1
    ensures HasPrefix(Join(parts, sep), parts[0])
  {
    if |parts| > 1 {
      assert Join(parts, sep) == parts[0] + (sep + Join(parts[1..], sep));
    }
  }
}
