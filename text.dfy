/**
  * The JavaScript string operations git-ai-commit relies on, stated over
  * `string` (a sequence of Unicode characters):
  *   - `s.replace(pat, rep)` with a string pattern (first occurrence only),
  *   - `s.replace(/pat/g, rep)` with a global regular expression whose
  *     pattern is a literal (every non-overlapping occurrence, left to right),
  *   - `s.split(sep)` with a one-character separator, and
  *   - `s.trim()`.
  */
module Text {

  /** `pat` occurs in `s` starting at index `i`. */
  predicate OccursAt(s: string, pat: string, i: nat) {
    i <= |s| && pat <= s[i..]
  }

  /** `pat` is a substring of `s`. */
  predicate Occurs(s: string, pat: string) {
    exists i: nat | i <= |s| :: OccursAt(s, pat, i)
  }

  /** The characters of `s` other than `c`, in order. */
  function Without(s: string, c: char): (r: string)
    ensures c !in r
    ensures |r| <= |s|
  {
    if s == [] then []
    else (if s[0] == c then [] else [s[0]]) + Without(s[1..], c)
  }

  // ---------------------------------------------------------------------
  // String.prototype.replace with a string pattern
  // ---------------------------------------------------------------------

  /** Replaces the leftmost occurrence of `pat` in `s` by `rep`; `s` is
      returned as it is when `pat` does not occur. */
  function ReplaceFirst(s: string, pat: string, rep: string): string
    decreases |s|
  {
    if pat <= s then rep + s[|pat|..]
    else if s == [] then []
    else [s[0]] + ReplaceFirst(s[1..], pat, rep)
  }

  /** When `pat` does not occur in `s`, replacing it changes nothing. */
  lemma {:induction false} ReplaceFirstAbsent(s: string, pat: string, rep: string)
    requires !Occurs(s, pat)
    ensures ReplaceFirst(s, pat, rep) == s
    decreases |s|
  {
    assert !OccursAt(s, pat, 0);
    if s != [] {
      forall i: nat | OccursAt(s[1..], pat, i) ensures false {
        assert s[1..][i..] == s[i + 1..];
        assert OccursAt(s, pat, i + 1);
      }
      ReplaceFirstAbsent(s[1..], pat, rep);
    }
  }

  /** A prefix in which no occurrence of `pat` starts is passed over
      unchanged, whatever follows it. */
  lemma {:induction false} ReplaceFirstSkipsClear(a: string, t: string, pat: string, rep: string)
    requires forall i: nat :: i < |a| ==> !OccursAt(a + t, pat, i)
    ensures ReplaceFirst(a + t, pat, rep) == a + ReplaceFirst(t, pat, rep)
    decreases |a|
  {
    if a == [] {
      assert a + t == t;
    } else {
      var s := a + t;
      var a' := a[1..];
      forall i: nat | i < |a'| ensures !OccursAt(a' + t, pat, i) {
        assert s[i + 1..] == (a' + t)[i..];
        assert !OccursAt(s, pat, i + 1);
      }
      calc {
        ReplaceFirst(s, pat, rep);
        { assert !OccursAt(s, pat, 0); assert s[1..] == a' + t; }
        [a[0]] + ReplaceFirst(a' + t, pat, rep);
        { ReplaceFirstSkipsClear(a', t, pat, rep); }
        [a[0]] + (a' + ReplaceFirst(t, pat, rep));
        { assert [a[0]] + a' == a; }
        a + ReplaceFirst(t, pat, rep);
      }
    }
  }

  /** The leftmost occurrence is the one replaced: when `pat` starts at
      `|a|` and nowhere before, the result is `a + rep + b`. */
  lemma ReplaceFirstLeftmost(a: string, pat: string, b: string, rep: string)
    requires forall i: nat :: i < |a| ==> !OccursAt(a + pat + b, pat, i)
    ensures ReplaceFirst(a + pat + b, pat, rep) == a + rep + b
  {
    assert a + pat + b == a + (pat + b);
    ReplaceFirstSkipsClear(a, pat + b, pat, rep);
    ReplaceFirstAtStart(pat, b, rep);
    assert a + (rep + b) == a + rep + b;
  }

  /** An occurrence at the very start is the one replaced. */
  lemma ReplaceFirstAtStart(pat: string, t: string, rep: string)
    ensures ReplaceFirst(pat + t, pat, rep) == rep + t
  {
    assert pat <= pat + t;
    assert (pat + t)[|pat|..] == t;
  }

  /** A prefix that does not contain the pattern's first character is
      passed over unchanged. */
  lemma {:induction false} ReplaceFirstSkips(a: string, b: string, pat: string, rep: string)
    requires pat != [] && pat[0] !in a
    ensures ReplaceFirst(a + b, pat, rep) == a + ReplaceFirst(b, pat, rep)
    decreases |a|
  {
    if a != [] {
      var s := a + b;
      assert s[0] == a[0];
      assert !(pat <= s);
      assert s[1..] == a[1..] + b;
      ReplaceFirstSkips(a[1..], b, pat, rep);
    } else {
      assert a + b == b;
    }
  }

  /** A string shorter than the pattern cannot contain it. */
  lemma {:induction false} ReplaceFirstTooShort(s: string, pat: string, rep: string)
    requires |s| < |pat|
    ensures ReplaceFirst(s, pat, rep) == s
    decreases |s|
  {
    if s != [] {
      ReplaceFirstTooShort(s[1..], pat, rep);
    }
  }

  /** Removing the first occurrence keeps the count of every character
      the pattern does not contain. */
  lemma {:induction false} ReplaceFirstKeepsCount(s: string, pat: string, c: char)
    requires c !in pat
    ensures multiset(ReplaceFirst(s, pat, ""))[c] == multiset(s)[c]
    decreases |s|
  {
    if pat <= s {
      assert s == pat + s[|pat|..];
      assert multiset(s) == multiset(pat) + multiset(s[|pat|..]);
      assert "" + s[|pat|..] == s[|pat|..];
    } else if s != [] {
      assert s == [s[0]] + s[1..];
      assert multiset(s) == multiset([s[0]]) + multiset(s[1..]);
      ReplaceFirstKeepsCount(s[1..], pat, c);
    }
  }

  // ---------------------------------------------------------------------
  // String.prototype.replace with a global regular expression /pat/g
  // whose pattern is a literal
  // ---------------------------------------------------------------------

  /** Replaces every occurrence of `pat`, scanning left to right and
      resuming after each replaced occurrence. */
  function ReplaceAll(s: string, pat: string, rep: string): string
    requires pat != []
    decreases |s|
  {
    if s == [] then []
    else if pat <= s then rep + ReplaceAll(s[|pat|..], pat, rep)
    else [s[0]] + ReplaceAll(s[1..], pat, rep)
  }

  /** A prefix that does not contain the pattern's first character is
      passed over unchanged. */
  lemma {:induction false} ReplaceAllSkips(a: string, b: string, pat: string, rep: string)
    requires pat != [] && pat[0] !in a
    ensures ReplaceAll(a + b, pat, rep) == a + ReplaceAll(b, pat, rep)
    decreases |a|
  {
    if a != [] {
      var s := a + b;
      assert s[0] == a[0];
      assert !(pat <= s);
      assert s[1..] == a[1..] + b;
      ReplaceAllSkips(a[1..], b, pat, rep);
    } else {
      assert a + b == b;
    }
  }

  /** When `pat` does not occur in `s`, the global replacement changes nothing. */
  lemma {:induction false} ReplaceAllAbsent(s: string, pat: string, rep: string)
    requires pat != [] && !Occurs(s, pat)
    ensures ReplaceAll(s, pat, rep) == s
    decreases |s|
  {
    if s != [] {
      assert !OccursAt(s, pat, 0);
      forall i: nat | OccursAt(s[1..], pat, i) ensures false {
        assert s[1..][i..] == s[i + 1..];
        assert OccursAt(s, pat, i + 1);
      }
      ReplaceAllAbsent(s[1..], pat, rep);
    }
  }

  /** The scan replaces the leftmost occurrence and resumes after it. */
  lemma {:induction false} ReplaceAllLeftmost(a: string, pat: string, b: string, rep: string)
    requires pat != []
    requires forall i: nat :: i < |a| ==> !OccursAt(a + pat + b, pat, i)
    ensures ReplaceAll(a + pat + b, pat, rep) == a + rep + ReplaceAll(b, pat, rep)
    decreases |a|
  {
    var s := a + pat + b;
    if a == [] {
      assert s == pat + b;
      assert pat <= s;
      assert s[|pat|..] == b;
    } else {
      assert !OccursAt(s, pat, 0);
      assert s[1..] == a[1..] + pat + b;
      forall i: nat | i < |a[1..]| ensures !OccursAt(a[1..] + pat + b, pat, i) {
        assert s[i + 1..] == (a[1..] + pat + b)[i..];
        assert !OccursAt(s, pat, i + 1);
      }
      ReplaceAllLeftmost(a[1..], pat, b, rep);
    }
  }

  /** Globally removing a one-character pattern drops exactly that character. */
  lemma {:induction false} ReplaceAllChar(s: string, c: char)
    ensures ReplaceAll(s, [c], "") == Without(s, c)
    decreases |s|
  {
    if s != [] {
      ReplaceAllChar(s[1..], c);
      if [c] <= s {
        assert s[0] == c;
      } else {
        assert s[0] != c;
      }
    }
  }

  /** Globally removing a pattern keeps the count of every character the
      pattern does not contain. */
  lemma {:induction false} ReplaceAllKeepsCount(s: string, pat: string, c: char)
    requires pat != [] && c !in pat
    ensures multiset(ReplaceAll(s, pat, ""))[c] == multiset(s)[c]
    decreases |s|
  {
    if s != [] {
      if pat <= s {
        assert s == pat + s[|pat|..];
        assert multiset(s) == multiset(pat) + multiset(s[|pat|..]);
        assert "" + ReplaceAll(s[|pat|..], pat, "") == ReplaceAll(s[|pat|..], pat, "");
        ReplaceAllKeepsCount(s[|pat|..], pat, c);
      } else {
        assert s == [s[0]] + s[1..];
        assert multiset(s) == multiset([s[0]]) + multiset(s[1..]);
        ReplaceAllKeepsCount(s[1..], pat, c);
      }
    }
  }

  /** `Without` distributes over concatenation. */
  lemma {:induction false} WithoutAppend(a: string, b: string, c: char)
    ensures Without(a + b, c) == Without(a, c) + Without(b, c)
    decreases |a|
  {
    if a == [] {
      assert a + b == b;
    } else {
      assert (a + b)[0] == a[0];
      assert (a + b)[1..] == a[1..] + b;
      WithoutAppend(a[1..], b, c);
    }
  }

  /** A string that does not contain `c` is its own `Without`. */
  lemma {:induction false} WithoutAbsent(s: string, c: char)
    requires c !in s
    ensures Without(s, c) == s
    decreases |s|
  {
    if s != [] {
      assert s[0] != c;
      WithoutAbsent(s[1..], c);
    }
  }

  // ---------------------------------------------------------------------
  // String.prototype.split with a one-character separator
  // ---------------------------------------------------------------------

  /** The pieces of `s` between occurrences of `sep`: `""` gives `[""]` and
      a trailing separator gives a trailing empty piece, as in JavaScript. */
  function Split(s: string, sep: char): (pieces: seq<string>)
    ensures |pieces| >= 1
    decreases |s|
  {
    if s == [] then [[]]
    else
      var rest := Split(s[1..], sep);
      if s[0] == sep then [[]] + rest
      else [[s[0]] + rest[0]] + rest[1..]
  }

  /** The inverse of `Split`: the pieces with one `sep` between neighbours. */
  function Join(pieces: seq<string>, sep: char): string
    decreases |pieces|
  {
    if |pieces| == 0 then []
    else if |pieces| == 1 then pieces[0]
    else pieces[0] + [sep] + Join(pieces[1..], sep)
  }

  /** The separator never appears inside a piece, and every character of a
      piece is a character of `s`. */
  lemma {:induction false} SplitPieces(s: string, sep: char)
    ensures forall k :: 0 <= k < |Split(s, sep)| ==> sep !in Split(s, sep)[k]
    ensures forall k, c :: 0 <= k < |Split(s, sep)| && c in Split(s, sep)[k] ==> c in s
    decreases |s|
  {
    if s != [] {
      var rest := Split(s[1..], sep);
      SplitPieces(s[1..], sep);
      assert forall c :: c in s[1..] ==> c in s;
      if s[0] != sep {
        assert forall c :: c in [s[0]] + rest[0] ==> c == s[0] || c in rest[0];
      }
    }
  }

  /** The pieces of a whitespace-only string are whitespace only. */
  lemma {:induction false} SplitBlank(s: string, sep: char)
    requires IsBlank(s)
    ensures forall k :: 0 <= k < |Split(s, sep)| ==> IsBlank(Split(s, sep)[k])
    decreases |s|
  {
    if s != [] {
      var rest := Split(s[1..], sep);
      SplitBlank(s[1..], sep);
      if s[0] != sep {
        var first := [s[0]] + rest[0];
        forall i | 0 <= i < |first| ensures IsWhitespace(first[i]) {
          if i > 0 { assert first[i] == rest[0][i - 1]; }
        }
      }
    }
  }

  /** Joining the pieces gives back the original string. */
  lemma {:induction false} JoinSplit(s: string, sep: char)
    ensures Join(Split(s, sep), sep) == s
    decreases |s|
  {
    if s != [] {
      var rest := Split(s[1..], sep);
      JoinSplit(s[1..], sep);
      if s[0] == sep {
        assert Split(s, sep) == [[]] + rest;
        assert ([[]] + rest)[1..] == rest;
      } else {
        var pieces := [[s[0]] + rest[0]] + rest[1..];
        assert Split(s, sep) == pieces;
        if |rest| == 1 {
          assert Join(rest, sep) == rest[0];
        } else {
          assert pieces[1..] == rest[1..];
          assert Join(rest, sep) == rest[0] + [sep] + Join(rest[1..], sep);
        }
      }
    }
  }

  /** Splitting a join of separator-free pieces gives back the pieces. */
  lemma {:induction false} SplitJoin(pieces: seq<string>, sep: char)
    requires |pieces| >= 1
    requires forall k :: 0 <= k < |pieces| ==> sep !in pieces[k]
    ensures Split(Join(pieces, sep), sep) == pieces
    decreases |pieces|
  {
    if |pieces| == 1 {
      SplitNoSep(pieces[0], sep);
    } else {
      var tail := Join(pieces[1..], sep);
      SplitJoin(pieces[1..], sep);
      SplitAtSep(pieces[0], tail, sep);
      assert [pieces[0]] + pieces[1..] == pieces;
    }
  }

  /** A string without the separator is a single piece. */
  lemma {:induction false} SplitNoSep(s: string, sep: char)
    requires sep !in s
    ensures Split(s, sep) == [s]
    decreases |s|
  {
    if s != [] {
      SplitNoSep(s[1..], sep);
      assert [s[0]] + s[1..] == s;
    }
  }

  /** Splitting `a + [sep] + t`, where `a` has no separator, makes `a` the
      first piece and the pieces of `t` the rest. */
  lemma {:induction false} SplitAtSep(a: string, t: string, sep: char)
    requires sep !in a
    ensures Split(a + [sep] + t, sep) == [a] + Split(t, sep)
    decreases |a|
  {
    var s := a + [sep] + t;
    if a == [] {
      assert s == [sep] + t;
      assert s[1..] == t;
    } else {
      assert s[0] == a[0];
      assert s[1..] == a[1..] + [sep] + t;
      SplitAtSep(a[1..], t, sep);
      assert [a[0]] + a[1..] == a;
    }
  }

  // ---------------------------------------------------------------------
  // String.prototype.trim
  // ---------------------------------------------------------------------

  /** ECMAScript's WhiteSpace and LineTerminator code points: tab, vertical
      tab, form feed, space, no-break space, byte order mark, the other
      space separators, LF, CR, line separator and paragraph separator. */
  predicate IsWhitespace(c: char) {
    c == '\t' || c == '\U{000B}' || c == '\U{000C}' || c == ' ' || c == '\U{00A0}'
    || c == '\U{FEFF}' || c == '\U{1680}' || ('\U{2000}' <= c <= '\U{200A}')
    || c == '\U{202F}' || c == '\U{205F}' || c == '\U{3000}'
    || c == '\n' || c == '\r' || c == '\U{2028}' || c == '\U{2029}'
  }

  /** Every character of `s` is whitespace (the empty string included). */
  predicate IsBlank(s: string) {
    forall i :: 0 <= i < |s| ==> IsWhitespace(s[i])
  }

  function TrimStart(s: string): string
    decreases |s|
  {
    if s != [] && IsWhitespace(s[0]) then TrimStart(s[1..]) else s
  }

  function TrimEnd(s: string): string
    decreases |s|
  {
    if s != [] && IsWhitespace(s[|s| - 1]) then TrimEnd(s[..|s| - 1]) else s
  }

  /** `s.trim()`: whitespace removed from both ends. */
  function Trim(s: string): string {
    TrimEnd(TrimStart(s))
  }

  lemma {:induction false} TrimStartBlank(s: string)
    ensures IsBlank(TrimStart(s)) <==> IsBlank(s)
    decreases |s|
  {
    if s != [] && IsWhitespace(s[0]) {
      TrimStartBlank(s[1..]);
      if IsBlank(s[1..]) {
        forall i | 0 <= i < |s| ensures IsWhitespace(s[i]) {
          if i > 0 { assert s[i] == s[1..][i - 1]; }
        }
      }
    }
  }

  lemma {:induction false} TrimEndEmpty(s: string)
    ensures TrimEnd(s) == [] <==> IsBlank(s)
    decreases |s|
  {
    if s != [] && IsWhitespace(s[|s| - 1]) {
      var init := s[..|s| - 1];
      TrimEndEmpty(init);
      if IsBlank(init) {
        forall i | 0 <= i < |s| ensures IsWhitespace(s[i]) {
          if i < |s| - 1 { assert s[i] == init[i]; }
        }
      }
    } else if s != [] {
      assert !IsWhitespace(s[|s| - 1]);
    }
  }

  /** `s.trim() === ''` exactly when `s` consists of whitespace only. */
  lemma TrimEmptyIffBlank(s: string)
    ensures Trim(s) == [] <==> IsBlank(s)
  {
    TrimStartBlank(s);
    TrimEndEmpty(TrimStart(s));
  }
}
