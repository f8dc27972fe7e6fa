/** Python's str.split(sep) for a one-character separator, str.strip() and
    the matching str.join, on strings as sequences of characters. */
module Text {

  /** Python's str.isspace() for one character: the ASCII whitespace and
      separator controls, the next-line control U+0085, the Unicode space
      separators, and the line and paragraph separators U+2028 and U+2029. */
  predicate IsSpace(c: char)
  {
    ('\t' <= c <= '\r') || ('\U{1C}' <= c <= '\U{1F}') || c == ' ' ||
    c == '\U{85}' || c == '\U{A0}' || c == '\U{1680}' ||
    ('\U{2000}' <= c <= '\U{200A}') || c == '\U{2028}' || c == '\U{2029}' ||
    c == '\U{202F}' || c == '\U{205F}' || c == '\U{3000}'
  }

  predicate AllSpace(s: string)
  {
    forall i :: 0 <= i < |s| ==> IsSpace(s[i])
  }

  /** Neither end of s is whitespace (the empty string counts as trimmed). */
  predicate Trimmed(s: string)
  {
    s == [] || (!IsSpace(s[0]) && !IsSpace(s[|s| - 1]))
  }

  /** s.lstrip() */
  function StripLeft(s: string): string
    decreases |s|
  {
    if s != [] && IsSpace(s[0]) then StripLeft(s[1..]) else s
  }

  /** s.rstrip() */
  function StripRight(s: string): string
    decreases |s|
  {
    if s != [] && IsSpace(s[|s| - 1]) then StripRight(s[..|s| - 1]) else s
  }

  /** s.strip() */
  function Strip(s: string): string
  {
    StripRight(StripLeft(s))
  }

  /** lstrip drops the whitespace prefix of s and nothing else. */
  lemma {:induction false} StripLeftSpec(s: string)
    ensures var r := StripLeft(s);
            |r| <= |s| && r == s[|s| - |r|..] &&
            (forall i :: 0 <= i < |s| - |r| ==> IsSpace(s[i])) &&
            (r != [] ==> !IsSpace(r[0]))
    decreases |s|
  {
    if s != [] && IsSpace(s[0]) {
      StripLeftSpec(s[1..]);
    }
  }

  /** rstrip drops the whitespace suffix of s and nothing else. */
  lemma {:induction false} StripRightSpec(s: string)
    ensures var r := StripRight(s);
            |r| <= |s| && r == s[..|r|] &&
            (forall i :: |r| <= i < |s| ==> IsSpace(s[i])) &&
            (r != [] ==> !IsSpace(r[|r| - 1]))
    decreases |s|
  {
    if s != [] && IsSpace(s[|s| - 1]) {
      StripRightSpec(s[..|s| - 1]);
    }
  }

  /** strip leaves neither end of its result whitespace. */
  lemma StripIsTrimmed(s: string)
    ensures Trimmed(Strip(s))
  {
    StripLeftSpec(s);
    StripRightSpec(StripLeft(s));
  }

  /** A trimmed string is its own strip, so strip is idempotent. */
  lemma StripTrimmed(s: string)
    requires Trimmed(s)
    ensures Strip(s) == s
  {
  }

  lemma StripIdempotent(s: string)
    ensures Strip(Strip(s)) == Strip(s)
  {
    StripIsTrimmed(s);
    StripTrimmed(Strip(s));
  }

  /** strip() returns "" exactly for the all-whitespace strings. */
  lemma StripEmpty(s: string)
    ensures Strip(s) == [] <==> AllSpace(s)
  {
    var l := StripLeft(s);
    StripLeftSpec(s);
    StripRightSpec(l);
    if Strip(s) == [] {
      assert l == [];
    }
  }

  /** Index of the first occurrence of c in s, or |s| when there is none. */
  function IndexOf(s: string, c: char): (i: nat)
    ensures i <= |s|
    ensures forall k :: 0 <= k < i ==> s[k] != c
    ensures i < |s| ==> s[i] == c
    ensures i == |s| <==> c !in s
  {
    if s == [] then 0 else if s[0] == c then 0 else 1 + IndexOf(s[1..], c)
  }

  /** s.split(sep) in Python: the pieces between the occurrences of sep,
      at least one piece (the empty string gives [""]). */
  function Split(s: string, sep: char): (r: seq<string>)
    ensures |r| >= 1
    decreases |s|
  {
    var i := IndexOf(s, sep);
    if i == |s| then [s] else [s[..i]] + Split(s[i + 1..], sep)
  }

  /** sep.join(parts) for a non-empty list of parts; Python's join of an
      empty list, "", is not needed by the writer. */
  function Join(parts: seq<string>, sep: char): (s: string)
    requires |parts| >= 1
    ensures parts[0] <= s
    decreases |parts|
  {
    if |parts| == 1 then parts[0] else parts[0] + [sep] + Join(parts[1..], sep)
  }

  predicate FreeOf(parts: seq<string>, c: char)
  {
    forall k :: 0 <= k < |parts| ==> c !in parts[k]
  }

  /** No piece of a split holds the separator. */
  lemma {:induction false} SplitFreeOf(s: string, sep: char)
    ensures FreeOf(Split(s, sep), sep)
    decreases |s|
  {
    var i := IndexOf(s, sep);
    if i < |s| {
      SplitFreeOf(s[i + 1..], sep);
      var r := Split(s, sep);
      assert r == [s[..i]] + Split(s[i + 1..], sep);
      assert sep !in s[..i] by {
        assert forall k :: 0 <= k < i ==> s[..i][k] == s[k];
      }
    }
  }

  /** Splitting undoes joining when no piece holds the separator. */
  lemma {:induction false} SplitJoin(parts: seq<string>, sep: char)
    requires |parts| >= 1 && FreeOf(parts, sep)
    ensures Split(Join(parts, sep), sep) == parts
    decreases |parts|
  {
    var s := Join(parts, sep);
    var p := parts[0];
    if |parts| == 1 {
      assert IndexOf(s, sep) == |s|;
    } else {
      var rest := Join(parts[1..], sep);
      assert s == p + [sep] + rest;
      assert s[..|p|] == p;
      assert s[|p|] == sep;
      assert forall k :: 0 <= k < |p| ==> s[k] == p[k];
      IndexOfFirst(s, sep, |p|);
      assert s[|p| + 1..] == rest;
      SplitJoin(parts[1..], sep);
      assert [p] + parts[1..] == parts;
    }
  }

  /** Joining undoes splitting. */
  lemma {:induction false} JoinSplit(s: string, sep: char)
    ensures Join(Split(s, sep), sep) == s
    decreases |s|
  {
    var i := IndexOf(s, sep);
    if i < |s| {
      var tail := Split(s[i + 1..], sep);
      assert Split(s, sep) == [s[..i]] + tail;
      assert ([s[..i]] + tail)[1..] == tail;
      JoinSplit(s[i + 1..], sep);
      assert Join(Split(s, sep), sep) == s[..i] + [sep] + Join(tail, sep);
      assert s == s[..i] + [sep] + s[i + 1..];
    }
  }

  lemma IndexOfFirst(s: string, c: char, i: nat)
    requires i < |s| && s[i] == c
    requires forall k :: 0 <= k < i ==> s[k] != c
    ensures IndexOf(s, c) == i
  {
  }

  /** The join of pieces free of c, with a separator other than c, is free of c. */
  lemma {:induction false} JoinFreeOf(parts: seq<string>, sep: char, c: char)
    requires |parts| >= 1 && FreeOf(parts, c) && sep != c
    ensures c !in Join(parts, sep)
    decreases |parts|
  {
    if |parts| > 1 {
      JoinFreeOf(parts[1..], sep, c);
    }
  }

  /** The join ends with its last piece. */
  lemma {:induction false} JoinEndsWith(parts: seq<string>, sep: char)
    requires |parts| >= 1
    ensures var s := Join(parts, sep);
            var last := parts[|parts| - 1];
            |last| <= |s| && s[|s| - |last|..] == last
    decreases |parts|
  {
    if |parts| > 1 {
      JoinEndsWith(parts[1..], sep);
    }
  }

  /** A join of non-empty trimmed pieces is itself trimmed. */
  lemma JoinTrimmed(parts: seq<string>, sep: char)
    requires |parts| >= 1 && parts[0] != [] && parts[|parts| - 1] != []
    requires Trimmed(parts[0]) && Trimmed(parts[|parts| - 1])
    ensures var s := Join(parts, sep); s != [] && Trimmed(s)
  {
    var s := Join(parts, sep);
    var last := parts[|parts| - 1];
    JoinEndsWith(parts, sep);
    assert s[0] == parts[0][0];
    assert s[|s| - 1] == last[|last| - 1];
  }

  /** Stripping whitespace off the front of a string that then starts
      with a non-space leaves exactly that string. */
  lemma {:induction false} StripLeftPrefix(p: string, r: string)
    requires AllSpace(p) && (r == [] || !IsSpace(r[0]))
    ensures StripLeft(p + r) == r
    decreases |p|
  {
    if p == [] {
      assert p + r == r;
    } else {
      assert (p + r)[1..] == p[1..] + r;
      StripLeftPrefix(p[1..], r);
    }
  }

  /** The mirror image for the back of the string. */
  lemma {:induction false} StripRightSuffix(r: string, q: string)
    requires AllSpace(q) && (r == [] || !IsSpace(r[|r| - 1]))
    ensures StripRight(r + q) == r
    decreases |q|
  {
    if q == [] {
      assert r + q == r;
    } else {
      assert (r + q)[..|r + q| - 1] == r + q[..|q| - 1];
      StripRightSuffix(r, q[..|q| - 1]);
    }
  }

  /** strip() removes exactly the whitespace around a trimmed core. */
  lemma StripFrame(pre: string, core: string, suf: string)
    requires AllSpace(pre) && AllSpace(suf) && Trimmed(core)
    ensures Strip(pre + core + suf) == core
  {
    if core == [] {
      assert pre + core + suf == pre + suf;
      StripLeftPrefix(pre + suf, []);
      assert pre + suf + [] == pre + suf;
    } else {
      assert pre + core + suf == pre + (core + suf);
      StripLeftPrefix(pre, core + suf);
      StripRightSuffix(core, suf);
    }
  }

  /** strip() never introduces a character. */
  lemma StripFreeOf(s: string, c: char)
    requires c !in s
    ensures c !in Strip(s)
  {
    StripLeftSpec(s);
    var l := StripLeft(s);
    assert forall k :: 0 <= k < |l| ==> l[k] == s[|s| - |l| + k];
    StripRightSpec(l);
    var r := StripRight(l);
    assert forall k :: 0 <= k < |r| ==> r[k] == l[k];
  }

  /** Every piece of a split is free of a character the text is free of. */
  lemma {:induction false} SplitKeepsFree(s: string, sep: char, c: char)
    requires c !in s
    ensures FreeOf(Split(s, sep), c)
    decreases |s|
  {
    var i := IndexOf(s, sep);
    if i < |s| {
      var rest := s[i + 1..];
      assert c !in rest by {
        assert forall k :: 0 <= k < |rest| ==> rest[k] == s[i + 1 + k];
      }
      SplitKeepsFree(rest, sep, c);
      assert c !in s[..i] by {
        assert forall k :: 0 <= k < i ==> s[..i][k] == s[k];
      }
      assert Split(s, sep) == [s[..i]] + Split(s[i + 1..], sep);
    }
  }

  /** The first piece starts as the text does, unless the text starts
      with the separator. */
  lemma SplitFirst(s: string, sep: char)
    requires s != [] && s[0] != sep
    ensures Split(s, sep)[0] != [] && Split(s, sep)[0][0] == s[0]
  {
  }

  /** The last piece r of a split ends as the text does, unless the text
      ends with the separator. */
  lemma SplitLast(s: string, sep: char, r: seq<string>)
    requires s != [] && s[|s| - 1] != sep && r == Split(s, sep)
    ensures r[|r| - 1] != [] && r[|r| - 1][|r[|r| - 1]| - 1] == s[|s| - 1]
  {
    JoinSplit(s, sep);
    JoinLastPiece(r, sep);
  }

  /** A join that does not end with the separator ends as its last piece does. */
  lemma JoinLastPiece(parts: seq<string>, sep: char)
    requires |parts| >= 1
    requires var s := Join(parts, sep); s != [] && s[|s| - 1] != sep
    ensures var s, p := Join(parts, sep), parts[|parts| - 1];
            p != [] && p[|p| - 1] == s[|s| - 1]
  {
    var n := |parts|;
    var s, p := Join(parts, sep), parts[n - 1];
    JoinEndsWith(parts, sep);
    if n > 1 {
      assert parts == parts[..n - 1] + [p];
      JoinAppend(parts[..n - 1], [p], sep);
    }
  }

  /** A split into a single piece is the text itself. */
  lemma SplitSingle(s: string, sep: char)
    requires |Split(s, sep)| == 1
    ensures Split(s, sep) == [s]
  {
  }

  /** Joining whitespace pieces with a whitespace separator gives whitespace. */
  lemma {:induction false} JoinAllSpace(parts: seq<string>, sep: char)
    requires |parts| >= 1 && IsSpace(sep)
    requires forall k :: 0 <= k < |parts| ==> AllSpace(parts[k])
    ensures AllSpace(Join(parts, sep))
    decreases |parts|
  {
    if |parts| > 1 {
      JoinAllSpace(parts[1..], sep);
    }
  }

  /** Joining a concatenation joins each half, with one separator between. */
  lemma {:induction false} JoinAppend(a: seq<string>, b: seq<string>, sep: char)
    requires |a| >= 1 && |b| >= 1
    ensures Join(a + b, sep) == Join(a, sep) + [sep] + Join(b, sep)
    decreases |a|
  {
    if |a| == 1 {
      assert (a + b)[1..] == b;
    } else {
      assert (a + b)[1..] == a[1..] + b;
      JoinAppend(a[1..], b, sep);
    }
  }

  /** Text put before the first piece comes first in the join. */
  lemma JoinPrefixFirst(parts: seq<string>, p: string, sep: char)
    requires |parts| >= 1
    ensures Join(parts[0 := p + parts[0]], sep) == p + Join(parts, sep)
  {
    var q := parts[0 := p + parts[0]];
    if |parts| > 1 {
      assert q[1..] == parts[1..];
    }
  }

  /** Text put after the last piece comes last in the join. */
  lemma JoinSuffixLast(parts: seq<string>, q: string, sep: char)
    requires |parts| >= 1
    ensures Join(parts[|parts| - 1 := parts[|parts| - 1] + q], sep) == Join(parts, sep) + q
  {
    var n := |parts|;
    var ps := parts[n - 1 := parts[n - 1] + q];
    if n > 1 {
      assert ps == parts[..n - 1] + [parts[n - 1] + q];
      assert parts == parts[..n - 1] + [parts[n - 1]];
      JoinAppend(parts[..n - 1], [parts[n - 1] + q], sep);
      JoinAppend(parts[..n - 1], [parts[n - 1]], sep);
    }
  }
}
