/** The .NET string operations the renamer relies on, as functions on
    `seq<char>`: `String.Split(char)`, `String.Replace(c, "")`,
    `String.Contains(string)` and plain concatenation. */
module Text {

  /** Joins `parts` with `sep` between neighbours (the inverse of `Split`). */
  function Join(parts: seq<string>, sep: char): string
  {
    if |parts| == 0 then ""
    else if |parts| == 1 then parts[0]
    else Join(parts[..|parts| - 1], sep) + [sep] + parts[|parts| - 1]
  }

  /** Joining one more part appends the separator and that part. */
  lemma JoinSnoc(parts: seq<string>, part: string, sep: char)
    ensures Join(parts + [part], sep) == if parts == [] then part else Join(parts, sep) + [sep] + part
  {
    assert (parts + [part])[..|parts|] == parts;
  }

  /** Every part followed by `sep`. */
  function Suffixed(parts: seq<string>, sep: char): string
  {
    if parts == [] then ""
    else Suffixed(parts[..|parts| - 1], sep) + parts[|parts| - 1] + [sep]
  }

  /** Suffixing one more part. */
  lemma SuffixedSnoc(parts: seq<string>, part: string, sep: char)
    ensures Suffixed(parts + [part], sep) == Suffixed(parts, sep) + (part + [sep])
  {
    assert (parts + [part])[..|parts|] == parts;
  }

  /** Joining is suffixing every part but the last. */
  lemma {:induction false} JoinSuffixed(parts: seq<string>, part: string, sep: char)
    ensures Join(parts + [part], sep) == Suffixed(parts, sep) + part
  {
    JoinSnoc(parts, part, sep);
    if parts != [] {
      var init := parts[..|parts| - 1];
      var last := parts[|parts| - 1];
      JoinSuffixed(init, last, sep);
      assert init + [last] == parts;
    }
  }

  /** Suffixing every part is joining them and adding one more separator. */
  lemma SuffixedAsJoin(parts: seq<string>, sep: char)
    requires parts != []
    ensures Suffixed(parts, sep) == Join(parts, sep) + [sep]
  {
    var init, last := parts[..|parts| - 1], parts[|parts| - 1];
    JoinSuffixed(init, last, sep);
    assert init + [last] == parts;
  }

  /** `s.Split(sep)`: cuts `s` at every occurrence of `sep`; empty pieces are
      kept, so `k` separators give `k + 1` pieces. */
  function Split(s: string, sep: char): (parts: seq<string>)
    ensures |parts| >= 1
  {
    if s == [] then [""]
    else
      var init := Split(s[..|s| - 1], sep);
      var last := s[|s| - 1];
      if last == sep then init + [""]
      else init[..|init| - 1] + [init[|init| - 1] + [last]]
  }

  /** `Split` gives one more piece than there are separators, no piece holds
      the separator, and joining the pieces gives `s` back. */
  lemma SplitProperties(s: string, sep: char)
    ensures |Split(s, sep)| == multiset(s)[sep] + 1
    ensures forall i :: 0 <= i < |Split(s, sep)| ==> sep !in Split(s, sep)[i]
    ensures Join(Split(s, sep), sep) == s
  {
    SplitCount(s, sep);
    SplitPiecesFree(s, sep);
    SplitJoinBack(s, sep);
  }

  /** How `Split` grows by one character: a separator starts a new, empty
      piece; any other character extends the last piece. */
  lemma SplitSnoc(s: string, last: char, sep: char)
    ensures var init := Split(s, sep);
      Split(s + [last], sep) ==
        if last == sep then init + [""] else init[..|init| - 1] + [init[|init| - 1] + [last]]
  {
    var t := s + [last];
    assert t[..|t| - 1] == s && t[|t| - 1] == last;
  }

  /** `k` separators give `k + 1` pieces. */
  lemma {:induction false} SplitCount(s: string, sep: char)
    ensures |Split(s, sep)| == multiset(s)[sep] + 1
  {
    if s != [] {
      var s', last := s[..|s| - 1], s[|s| - 1];
      SplitCount(s', sep);
      assert s' + [last] == s;
      SplitCountStep(s', last, sep);
    }
  }

  /** One step of `SplitCount`. */
  lemma SplitCountStep(s: string, last: char, sep: char)
    requires |Split(s, sep)| == multiset(s)[sep] + 1
    ensures |Split(s + [last], sep)| == multiset(s + [last])[sep] + 1
  {
    SplitSnoc(s, last, sep);
    assert multiset(s + [last]) == multiset(s) + multiset{last};
  }

  /** No piece holds the separator. */
  lemma {:induction false} SplitPiecesFree(s: string, sep: char)
    ensures forall i :: 0 <= i < |Split(s, sep)| ==> sep !in Split(s, sep)[i]
  {
    if s != [] {
      var s', last := s[..|s| - 1], s[|s| - 1];
      SplitPiecesFree(s', sep);
      assert s' + [last] == s;
      SplitPiecesFreeStep(s', last, sep);
    }
  }

  /** One step of `SplitPiecesFree`. */
  lemma SplitPiecesFreeStep(s: string, last: char, sep: char)
    requires forall i :: 0 <= i < |Split(s, sep)| ==> sep !in Split(s, sep)[i]
    ensures forall i :: 0 <= i < |Split(s + [last], sep)| ==> sep !in Split(s + [last], sep)[i]
  {
    SplitSnoc(s, last, sep);
    var init, parts := Split(s, sep), Split(s + [last], sep);
    forall i | 0 <= i < |parts|
      ensures sep !in parts[i]
    {
      if i < |init| - 1 || (last == sep && i < |init|) {
        assert parts[i] == init[i];
      } else if last != sep {
        assert parts[i] == init[|init| - 1] + [last];
      }
    }
  }

  /** Joining the pieces with the separator gives the string back. */
  lemma {:induction false} SplitJoinBack(s: string, sep: char)
    ensures Join(Split(s, sep), sep) == s
  {
    if s != [] {
      var s', last := s[..|s| - 1], s[|s| - 1];
      SplitJoinBack(s', sep);
      assert s' + [last] == s;
      SplitJoinBackStep(s', last, sep);
    }
  }

  /** One step of `SplitJoinBack`. */
  lemma SplitJoinBackStep(s: string, last: char, sep: char)
    requires Join(Split(s, sep), sep) == s
    ensures Join(Split(s + [last], sep), sep) == s + [last]
  {
    SplitSnoc(s, last, sep);
    var init := Split(s, sep);
    if last == sep {
      JoinSnoc(init, "", sep);
      assert Join(init, sep) + [sep] + "" == s + [last];
    } else {
      var m := |init|;
      assert init[..m - 1] + [init[m - 1]] == init;
      JoinExtendLast(init[..m - 1], init[m - 1], last, sep);
    }
  }

  /** Extending the last part extends the joined string. */
  lemma JoinExtendLast(head: seq<string>, x: string, last: char, sep: char)
    ensures Join(head + [x + [last]], sep) == Join(head + [x], sep) + [last]
  {
    JoinSnoc(head, x, sep);
    JoinSnoc(head, x + [last], sep);
    if head != [] {
      assert Join(head, sep) + [sep] + x + [last] == Join(head, sep) + [sep] + (x + [last]);
    }
  }

  /** Splitting a joined list gives the list back, when no part holds the separator. */
  lemma {:induction false} SplitJoin(parts: seq<string>, sep: char)
    requires |parts| >= 1
    requires forall i :: 0 <= i < |parts| ==> sep !in parts[i]
    ensures Split(Join(parts, sep), sep) == parts
  {
    if |parts| == 1 {
      SplitWithoutSeparator(parts[0], sep);
    } else {
      var init := parts[..|parts| - 1];
      SplitJoin(init, sep);
      SplitAfterSeparator(Join(init, sep), parts[|parts| - 1], sep);
      assert init + [parts[|parts| - 1]] == parts;
    }
  }

  /** A string without the separator splits into itself alone. */
  lemma {:induction false} SplitWithoutSeparator(p: string, sep: char)
    requires sep !in p
    ensures Split(p, sep) == [p]
  {
    if p != [] {
      SplitWithoutSeparator(p[..|p| - 1], sep);
      assert p[..|p| - 1] + [p[|p| - 1]] == p;
    }
  }

  /** Appending a separator and a separator-free piece appends one part. */
  lemma {:induction false} SplitAfterSeparator(a: string, p: string, sep: char)
    requires sep !in p
    ensures Split(a + [sep] + p, sep) == Split(a, sep) + [p]
  {
    if p == [] {
      assert (a + [sep] + p)[..|a| + 1 - 1] == a;
    } else {
      var q := p[..|p| - 1];
      SplitAfterSeparator(a, q, sep);
      assert (a + [sep] + p)[..|a + [sep] + p| - 1] == a + [sep] + q;
      assert q + [p[|p| - 1]] == p;
    }
  }

  /** Direct concatenation of all parts, as repeated `+=` does. */
  function Concat(parts: seq<string>): string
  {
    if |parts| == 0 then ""
    else Concat(parts[..|parts| - 1]) + parts[|parts| - 1]
  }

  /** The characters of `s` that are not in `bad`, in their original order:
      `Replace(c.ToString(), "")` applied for every `c` in `bad`. */
  function Remove(s: string, bad: set<char>): (r: string)
    ensures |r| <= |s|
  {
    if |s| == 0 then ""
    else
      Remove(s[..|s| - 1], bad) + (if s[|s| - 1] in bad then "" else [s[|s| - 1]])
  }

  /** No character of `bad` is left after `Remove`. */
  lemma {:induction false} RemoveClean(s: string, bad: set<char>)
    ensures forall c :: c in Remove(s, bad) ==> c !in bad
  {
    if s != [] {
      RemoveClean(s[..|s| - 1], bad);
    }
  }

  /** `Remove` keeps every occurrence of every character outside `bad`. */
  lemma {:induction false} RemoveKeepsOthers(s: string, bad: set<char>, c: char)
    requires c !in bad
    ensures multiset(Remove(s, bad))[c] == multiset(s)[c]
  {
    if s != [] {
      var init, last := s[..|s| - 1], s[|s| - 1];
      RemoveKeepsOthers(init, bad, c);
      assert s == init + [last];
      RemoveKeepsOthersStep(init, last, bad, c);
    }
  }

  /** One step of `RemoveKeepsOthers`. */
  lemma RemoveKeepsOthersStep(s: string, last: char, bad: set<char>, c: char)
    requires c !in bad
    requires multiset(Remove(s, bad))[c] == multiset(s)[c]
    ensures multiset(Remove(s + [last], bad))[c] == multiset(s + [last])[c]
  {
    var t := s + [last];
    var tail := if last in bad then "" else [last];
    assert t[..|t| - 1] == s && t[|t| - 1] == last;
    assert multiset(t) == multiset(s) + multiset{last};
    assert Remove(t, bad) == Remove(s, bad) + tail;
    assert multiset(Remove(t, bad)) == multiset(Remove(s, bad)) + multiset(tail);
  }

  /** Removing distributes over concatenation, so order is kept. */
  lemma {:induction false} RemoveAppend(a: string, b: string, bad: set<char>)
    ensures Remove(a + b, bad) == Remove(a, bad) + Remove(b, bad)
  {
    if b != [] {
      var b', last := b[..|b| - 1], b[|b| - 1];
      var tail := if last in bad then "" else [last];
      RemoveAppend(a, b', bad);
      assert (a + b)[..|a + b| - 1] == a + b';
      assert (a + b)[|a + b| - 1] == last;
      assert Remove(a + b, bad) == Remove(a + b', bad) + tail;
      assert Remove(b, bad) == Remove(b', bad) + tail;
    } else {
      assert a + b == a;
    }
  }

  /** `Remove` changes nothing exactly when no character of `s` is in `bad`. */
  lemma {:induction false} RemoveUnchangedIff(s: string, bad: set<char>)
    ensures Remove(s, bad) == s <==> forall c :: c in s ==> c !in bad
  {
    if s != [] {
      var init := s[..|s| - 1];
      RemoveUnchangedIff(init, bad);
      assert s == init + [s[|s| - 1]];
      if s[|s| - 1] in bad {
        assert |Remove(s, bad)| < |s|;
      } else if Remove(s, bad) == s {
        assert Remove(init, bad) == init;
      }
    }
  }

  /** Removing twice removes the union, so removal is idempotent. */
  lemma {:induction false} RemoveTwice(s: string, a: set<char>, b: set<char>)
    ensures Remove(Remove(s, a), b) == Remove(s, a + b)
  {
    if s != [] {
      var init := s[..|s| - 1];
      var last := s[|s| - 1];
      RemoveTwice(init, a, b);
      RemoveAppend(Remove(init, a), if last in a then "" else [last], b);
    }
  }

  /** `sub` occurs in `s` starting at index `i`. */
  predicate OccursAt(s: string, sub: string, i: int)
  {
    0 <= i <= |s| - |sub| && s[i..i + |sub|] == sub
  }

  /** `s.Contains(sub)`: `sub` occurs in `s` at some position. */
  predicate Contains(s: string, sub: string)
  {
    exists i :: 0 <= i <= |s| - |sub| && OccursAt(s, sub, i)
  }
}
