/** The JavaScript string built-ins that the remapping code relies on:
    `String.prototype.split` with a one-character separator and no limit,
    `String.prototype.trim`, `String.prototype.match` with a pattern that
    has no regular-expression metacharacters, `String.prototype.indexOf` and
    `String.prototype.replace` with a string pattern (first occurrence only).
    Strings are sequences of characters. */
module JsStrings {
  import opened Wrappers

  /** The characters that `trim` strips and that the regular-expression class
      `\s` matches: the ECMAScript WhiteSpace code points (tab, vertical tab,
      form feed, space, no-break space, byte order mark and the other Unicode
      space separators) and the LineTerminator code points (line feed,
      carriage return, line and paragraph separators). */
  predicate IsWhitespace(c: char)
  {
    c == '\t' || c == '\n' || c == '\U{000B}' || c == '\U{000C}' || c == '\r' ||
    c == ' ' || c == '\U{00A0}' || c == '\U{1680}' ||
    ('\U{2000}' <= c <= '\U{200A}') ||
    c == '\U{2028}' || c == '\U{2029}' || c == '\U{202F}' || c == '\U{205F}' ||
    c == '\U{3000}' || c == '\U{FEFF}'
  }

  predicate AllWhitespace(s: string)
  {
    forall i :: 0 <= i < |s| ==> IsWhitespace(s[i])
  }

  // ---------------------------------------------------------------------------
  // split

  /** `s.split(sep)`: the maximal runs of `s` between occurrences of `sep`;
      there is always at least one field and no field holds a separator. */
  function Split(s: string, sep: char): (fields: seq<string>)
    ensures |fields| >= 1
    ensures forall f :: f in fields ==> sep !in f
  {
    if |s| == 0 then [""]
    else
      var rest := Split(s[1..], sep);
      if s[0] == sep then [""] + rest
      else [[s[0]] + rest[0]] + rest[1..]
  }

  /** There is one field more than there are separators in the split string. */
  lemma {:induction false} SplitCount(s: string, sep: char)
    ensures |Split(s, sep)| == multiset(s)[sep] + 1
  {
    if |s| > 0 {
      SplitCount(s[1..], sep);
      assert s == [s[0]] + s[1..];
    }
  }

  /** A character that does not occur in the split string does not occur in
      any of its fields. */
  lemma {:induction false} SplitAbsent(s: string, sep: char, c: char)
    requires c !in s
    ensures forall f :: f in Split(s, sep) ==> c !in f
  {
    if |s| > 0 {
      SplitAbsent(s[1..], sep, c);
      assert s[0] != c;
    }
  }

  /** `fields.join(sep)`. */
  function Join(fields: seq<string>, sep: char): string
  {
    if |fields| == 0 then ""
    else if |fields| == 1 then fields[0]
    else fields[0] + [sep] + Join(fields[1..], sep)
  }

  lemma JoinConsFirst(c: char, first: string, more: seq<string>, sep: char)
    ensures Join([[c] + first] + more, sep) == [c] + Join([first] + more, sep)
  {
    var xs := [[c] + first] + more;
    var ys := [first] + more;
    assert xs[1..] == more && ys[1..] == more;
  }

  /** Joining the fields of a split with the same separator gives back the
      string that was split. */
  lemma {:induction false} JoinSplit(s: string, sep: char)
    ensures Join(Split(s, sep), sep) == s
  {
    if |s| > 0 {
      var rest := Split(s[1..], sep);
      JoinSplit(s[1..], sep);
      assert s == [s[0]] + s[1..];
      if s[0] == sep {
        var fields := [""] + rest;
        assert Split(s, sep) == fields;
        assert fields[1..] == rest;
        assert Join(fields, sep) == "" + [sep] + Join(rest, sep);
      } else {
        assert Split(s, sep) == [[s[0]] + rest[0]] + rest[1..];
        assert rest == [rest[0]] + rest[1..];
        JoinConsFirst(s[0], rest[0], rest[1..], sep);
      }
    }
  }

  lemma {:induction false} SplitNoSeparator(s: string, sep: char)
    requires sep !in s
    ensures Split(s, sep) == [s]
  {
    if |s| > 0 {
      SplitNoSeparator(s[1..], sep);
      assert [s[0]] + s[1..] == s;
    }
  }

  lemma {:induction false} SplitAtSeparator(p: string, sep: char, t: string)
    requires sep !in p
    ensures Split(p + [sep] + t, sep) == [p] + Split(t, sep)
  {
    var s := p + [sep] + t;
    if |p| == 0 {
      assert s[0] == sep && s[1..] == t;
    } else {
      assert s[0] == p[0] && s[1..] == p[1..] + [sep] + t;
      SplitAtSeparator(p[1..], sep, t);
      assert [p[0]] + p[1..] == p;
    }
  }

  /** Splitting a join of separator-free fields gives back those fields:
      split and join are inverse to each other. */
  lemma {:induction false} SplitJoin(fields: seq<string>, sep: char)
    requires |fields| >= 1
    requires forall i :: 0 <= i < |fields| ==> sep !in fields[i]
    ensures Split(Join(fields, sep), sep) == fields
  {
    if |fields| == 1 {
      SplitNoSeparator(fields[0], sep);
    } else {
      SplitJoin(fields[1..], sep);
      SplitAtSeparator(fields[0], sep, Join(fields[1..], sep));
      assert [fields[0]] + fields[1..] == fields;
    }
  }

  /** The first field is a prefix of the split string and the last field is a
      suffix of it. */
  lemma {:induction false} SplitEnds(s: string, sep: char)
    ensures Split(s, sep)[0] <= s
    ensures var last := Split(s, sep)[|Split(s, sep)| - 1];
      |last| <= |s| && last == s[|s| - |last|..]
  {
    if |s| > 0 {
      SplitEnds(s[1..], sep);
      var rest := Split(s[1..], sep);
      if s[0] != sep {
        assert [s[0]] + s[1..][..|rest[0]|] == s[..1 + |rest[0]|];
        if |rest| == 1 {
          JoinSplit(s[1..], sep);
          assert [s[0]] + s[1..] == s;
        }
      }
    }
  }

  // ---------------------------------------------------------------------------
  // trim

  /** Strips leading whitespace: what is left is a suffix of `s`, everything
      removed is whitespace, and what is left does not start with whitespace. */
  function TrimStart(s: string): (r: string)
    ensures |r| <= |s| && r == s[|s| - |r|..]
    ensures AllWhitespace(s[..|s| - |r|])
    ensures r == [] || !IsWhitespace(r[0])
  {
    if |s| > 0 && IsWhitespace(s[0]) then TrimStart(s[1..]) else s
  }

  /** Strips trailing whitespace: what is left is a prefix of `s`, everything
      removed is whitespace, and what is left does not end with whitespace. */
  function TrimEnd(s: string): (r: string)
    ensures |r| <= |s| && r == s[..|r|]
    ensures AllWhitespace(s[|r|..])
    ensures r == [] || !IsWhitespace(r[|r| - 1])
  {
    if |s| > 0 && IsWhitespace(s[|s| - 1]) then
      var r := TrimEnd(s[..|s| - 1]);
      assert s[|r|..] == s[..|s| - 1][|r|..] + [s[|s| - 1]];
      r
    else s
  }

  /** `s.trim()`: removes the leading and then the trailing whitespace. */
  function Trim(s: string): (r: string)
    ensures r == [] || (!IsWhitespace(r[0]) && !IsWhitespace(r[|r| - 1]))
  {
    TrimEnd(TrimStart(s))
  }

  /** Trim removes a whitespace prefix and a whitespace suffix and keeps the
      middle as it is. */
  lemma TrimInfix(s: string)
    ensures exists a, b :: (0 <= a <= b <= |s| && Trim(s) == s[a..b] &&
      AllWhitespace(s[..a]) && AllWhitespace(s[b..]))
  {
    var t := TrimStart(s);
    var a := |s| - |t|;
    var b := a + |Trim(s)|;
    assert Trim(s) == s[a..b];
    assert s[b..] == t[|Trim(s)|..];
  }

  /** Trim adds no character: one absent from `s` is absent from `s.trim()`. */
  lemma TrimAbsent(s: string, c: char)
    requires c !in s
    ensures c !in Trim(s)
  {
    var t := TrimStart(s);
    assert forall i :: 0 <= i < |Trim(s)| ==> Trim(s)[i] == t[i] == s[|s| - |t| + i];
  }

  /** Trim keeps every character that is not whitespace, with its count. */
  lemma TrimKeepsNonWhitespace(s: string, c: char)
    requires !IsWhitespace(c)
    ensures multiset(Trim(s))[c] == multiset(s)[c]
  {
    TrimStartKeeps(s, c);
    TrimEndKeeps(TrimStart(s), c);
  }

  lemma {:induction false} TrimStartKeeps(s: string, c: char)
    requires !IsWhitespace(c)
    ensures multiset(TrimStart(s))[c] == multiset(s)[c]
  {
    if |s| > 0 && IsWhitespace(s[0]) {
      TrimStartKeeps(s[1..], c);
      assert s == [s[0]] + s[1..];
    }
  }

  lemma {:induction false} TrimEndKeeps(s: string, c: char)
    requires !IsWhitespace(c)
    ensures multiset(TrimEnd(s))[c] == multiset(s)[c]
  {
    if |s| > 0 && IsWhitespace(s[|s| - 1]) {
      TrimEndKeeps(s[..|s| - 1], c);
      assert s == s[..|s| - 1] + [s[|s| - 1]];
    }
  }

  lemma {:induction false} TrimStartOfWhitespacePrefix(w: string, m: string)
    requires AllWhitespace(w)
    requires m == [] || !IsWhitespace(m[0])
    ensures TrimStart(w + m) == m
  {
    if |w| > 0 {
      assert (w + m)[1..] == w[1..] + m;
      TrimStartOfWhitespacePrefix(w[1..], m);
    } else {
      assert w + m == m;
    }
  }

  lemma {:induction false} TrimEndOfWhitespaceSuffix(m: string, w: string)
    requires AllWhitespace(w)
    requires m == [] || !IsWhitespace(m[|m| - 1])
    ensures TrimEnd(m + w) == m
  {
    if |w| > 0 {
      assert (m + w)[..|m + w| - 1] == m + w[..|w| - 1];
      TrimEndOfWhitespaceSuffix(m, w[..|w| - 1]);
    } else {
      assert m + w == m;
    }
  }

  /** Trim has exactly one answer: whenever `s` is whitespace, then a middle
      part that neither starts nor ends with whitespace, then whitespace,
      trimming `s` yields that middle part. */
  lemma TrimUnique(lead: string, middle: string, trail: string)
    requires AllWhitespace(lead) && AllWhitespace(trail)
    requires middle == [] || (!IsWhitespace(middle[0]) && !IsWhitespace(middle[|middle| - 1]))
    ensures Trim(lead + middle + trail) == middle
  {
    if middle == [] {
      assert lead + middle + trail == lead + trail;
      TrimStartOfWhitespacePrefix(lead + trail, []);
      assert lead + trail + [] == lead + trail;
    } else {
      assert lead + middle + trail == lead + (middle + trail);
      TrimStartOfWhitespacePrefix(lead, middle + trail);
      TrimEndOfWhitespaceSuffix(middle, trail);
    }
  }

  // ---------------------------------------------------------------------------
  // indexOf and replace

  /** `pattern` occurs in `s` starting at position `at`. */
  predicate OccursAt(s: string, pattern: string, at: nat)
  {
    at + |pattern| <= |s| && s[at..at + |pattern|] == pattern
  }

  function IndexFrom(s: string, pattern: string, from: nat): (r: Option<nat>)
    requires from <= |s| + 1
    ensures r.Some? ==> from <= r.value && OccursAt(s, pattern, r.value)
    ensures forall q: nat :: from <= q && (r.None? || q < r.value) ==> !OccursAt(s, pattern, q)
    decreases |s| + 1 - from
  {
    if from + |pattern| > |s| then None
    else if s[from..from + |pattern|] == pattern then Some(from)
    else IndexFrom(s, pattern, from + 1)
  }

  /** `s.indexOf(pattern)`: the first position where `pattern` occurs, or
      nothing when it does not occur at all. The empty pattern occurs at 0. */
  function IndexOf(s: string, pattern: string): (r: Option<nat>)
    ensures r.Some? ==> OccursAt(s, pattern, r.value)
    ensures forall q: nat :: (r.None? || q < r.value) ==> !OccursAt(s, pattern, q)
  {
    IndexFrom(s, pattern, 0)
  }

  /** `s.match(pattern)` for a pattern without regular-expression
      metacharacters: whether `pattern` occurs anywhere in `s`. */
  predicate Contains(s: string, pattern: string)
  {
    IndexOf(s, pattern).Some?
  }

  /** `s.replace(pattern, replacement)` with a string pattern: the first
      occurrence of `pattern` is replaced by `replacement`; without an
      occurrence `s` comes back as it is. Everything before the occurrence is
      kept, everything after it is kept, and the length changes by the
      difference of the two lengths. */
  function ReplaceFirst(s: string, pattern: string, replacement: string): (r: string)
    ensures !Contains(s, pattern) ==> r == s
    ensures Contains(s, pattern) ==>
      var at := IndexOf(s, pattern).value;
      |r| == |s| - |pattern| + |replacement| &&
      r[..at] == s[..at] &&
      r[at..at + |replacement|] == replacement &&
      r[at + |replacement|..] == s[at + |pattern|..] &&
      (forall q: nat :: q < at ==> !OccursAt(s, pattern, q))
  {
    match IndexOf(s, pattern)
    case None => s
    case Some(at) => s[..at] + replacement + s[at + |pattern|..]
  }

}
