/** The JavaScript string operations the status filter is parsed with:
    `String.prototype.split` on a one-character separator, `trim`, and
    `Array.prototype.join`, which is `split`'s inverse. */
module Text {

  /** The characters `trim` removes: ECMAScript's WhiteSpace and
      LineTerminator productions. */
  predicate IsWhitespace(c: char)
  {
    c == ' ' || c == '\t' || c == '\n' || c == '\r' || c == '\U{B}' || c == '\U{C}'
    || c == '\U{A0}' || c == '\U{1680}' || ('\U{2000}' <= c <= '\U{200A}')
    || c == '\U{2028}' || c == '\U{2029}' || c == '\U{202F}' || c == '\U{205F}'
    || c == '\U{3000}' || c == '\U{FEFF}'
  }

  /** `s.split(sep)`: the pieces between separators, including empty ones;
      the empty string splits into one empty piece. */
  function Split(s: string, sep: char): (r: seq<string>)
    ensures |r| >= 1
    ensures forall i :: 0 <= i < |r| ==> sep !in r[i]
  {
    if s == [] then [""]
    else
      var rest := Split(s[1..], sep);
      if s[0] == sep then [""] + rest
      else [[s[0]] + rest[0]] + rest[1..]
  }

  /** `pieces.join(sep)`. */
  function Join(pieces: seq<string>, sep: char): (r: string)
    ensures |pieces| >= 2 ==> sep in r
  {
    if pieces == [] then ""
    else if |pieces| == 1 then pieces[0]
    else pieces[0] + [sep] + Join(pieces[1..], sep)
  }

  /** Joining the pieces of a split gives back the split string. */
  lemma {:induction false} JoinSplit(s: string, sep: char)
    ensures Join(Split(s, sep), sep) == s
  {
    if s != [] {
      var rest := Split(s[1..], sep);
      JoinSplit(s[1..], sep);
      if s[0] == sep {
        assert ([""] + rest)[1..] == rest;
      } else {
        var r := [[s[0]] + rest[0]] + rest[1..];
        if |rest| > 1 {
          assert r[1..] == rest[1..];
          assert Join(rest, sep) == rest[0] + [sep] + Join(rest[1..], sep);
        }
        assert s == [s[0]] + s[1..];
      }
    }
  }

  /** Splitting a join of separator-free pieces gives back the pieces, so a
      split loses nothing and invents nothing. */
  lemma {:induction false} SplitJoin(pieces: seq<string>, sep: char)
    requires |pieces| >= 1
    requires forall i :: 0 <= i < |pieces| ==> sep !in pieces[i]
    ensures Split(Join(pieces, sep), sep) == pieces
  {
    if |pieces| == 1 {
      SplitFree(pieces[0], sep);
    } else {
      SplitJoin(pieces[1..], sep);
      SplitPrefix(pieces[0], Join(pieces[1..], sep), sep);
      assert pieces == [pieces[0]] + pieces[1..];
    }
  }

  /** A separator-free string is a single piece. */
  lemma {:induction false} SplitFree(s: string, sep: char)
    requires sep !in s
    ensures Split(s, sep) == [s]
  {
    if s != [] {
      SplitFree(s[1..], sep);
      assert s == [s[0]] + s[1..];
    }
  }

  /** A separator-free prefix followed by a separator becomes the first piece. */
  lemma {:induction false} SplitPrefix(p: string, t: string, sep: char)
    requires sep !in p
    ensures Split(p + [sep] + t, sep) == [p] + Split(t, sep)
  {
    if p == [] {
      assert [] + [sep] + t == [sep] + t;
      assert ([sep] + t)[1..] == t;
    } else {
      SplitPrefix(p[1..], t, sep);
      assert (p + [sep] + t)[1..] == p[1..] + [sep] + t;
      assert [p[0]] + p[1..] == p;
    }
  }

  /** `s.trimStart()`: what remains is a suffix of `s` that does not start
      with whitespace, and everything removed is whitespace. */
  function TrimStart(s: string): (r: string)
    ensures |r| <= |s| && r == s[|s| - |r|..]
    ensures r == [] || !IsWhitespace(r[0])
    ensures forall k :: 0 <= k < |s| - |r| ==> IsWhitespace(s[k])
  {
    if s != [] && IsWhitespace(s[0]) then TrimStart(s[1..]) else s
  }

  /** `s.trimEnd()`: what remains is a prefix of `s` that does not end with
      whitespace, and everything removed is whitespace. */
  function TrimEnd(s: string): (r: string)
    ensures |r| <= |s| && r == s[..|r|]
    ensures r == [] || !IsWhitespace(r[|r| - 1])
    ensures forall k :: |r| <= k < |s| ==> IsWhitespace(s[k])
  {
    if s != [] && IsWhitespace(s[|s| - 1]) then TrimEnd(s[..|s| - 1]) else s
  }

  /** `s.trim()`: the slice of `s` left after removing its leading and its
      trailing whitespace; no whitespace is left at either end. */
  function Trim(s: string): (r: string)
    ensures |r| <= |s|
    ensures r == [] || (!IsWhitespace(r[0]) && !IsWhitespace(r[|r| - 1]))
    ensures exists a, b ::
              && 0 <= a <= b <= |s| && r == s[a..b]
              && (forall k :: 0 <= k < a ==> IsWhitespace(s[k]))
              && (forall k :: b <= k < |s| ==> IsWhitespace(s[k]))
  {
    var t := TrimStart(s);
    var r := TrimEnd(t);
    var a := |s| - |t|;
    PrefixOfSuffix(s, t, r);
    TailWhitespace(s, t, r, a);
    assert r != [] ==> r[0] == t[0];
    assert && 0 <= a <= a + |r| <= |s| && r == s[a..a + |r|]
           && (forall k :: 0 <= k < a ==> IsWhitespace(s[k]))
           && (forall k :: a + |r| <= k < |s| ==> IsWhitespace(s[k]));
    r
  }

  /** Every character `trim` keeps comes from its input. */
  lemma TrimKeepsCharacters(s: string)
    ensures forall c :: c in Trim(s) ==> c in s
  {
    var a, b :| 0 <= a <= b <= |s| && Trim(s) == s[a..b];
    SliceMembers(s, a, b);
  }

  /** A prefix of a suffix of `s` is a slice of `s`. */
  lemma PrefixOfSuffix<T>(s: seq<T>, t: seq<T>, r: seq<T>)
    requires |t| <= |s| && t == s[|s| - |t|..]
    requires |r| <= |t| && r == t[..|r|]
    ensures r == s[|s| - |t|..|s| - |t| + |r|]
  {
    SliceOfSuffix(s, |s| - |t|, |r|);
  }

  /** The first `n` characters of the suffix from `a` are the slice from `a`
      of length `n`. */
  lemma SliceOfSuffix<T>(s: seq<T>, a: nat, n: nat)
    requires a + n <= |s|
    ensures s[a..][..n] == s[a..a + n]
  {
  }

  /** Every element of a slice is an element of the whole. */
  lemma SliceMembers<T>(s: seq<T>, a: nat, b: nat)
    requires a <= b <= |s|
    ensures forall c :: c in s[a..b] ==> c in s
  {
    forall c | c in s[a..b] ensures c in s {
      var k :| 0 <= k < b - a && s[a..b][k] == c;
      assert s[a + k] == c;
    }
  }

  /** What `TrimEnd` removes from the suffix `t` starting at `a` is the
      whitespace at the end of `s`. */
  lemma TailWhitespace(s: string, t: string, r: string, a: nat)
    requires a + |t| == |s| && t == s[a..]
    requires |r| <= |t| && forall k :: |r| <= k < |t| ==> IsWhitespace(t[k])
    ensures forall k :: a + |r| <= k < |s| ==> IsWhitespace(s[k])
  {
    forall k | a + |r| <= k < |s| ensures IsWhitespace(s[k]) {
      assert s[k] == t[k - a];
    }
  }

  /** A string with no whitespace at either end is its own trim. */
  lemma TrimTrimmed(s: string)
    requires s == [] || (!IsWhitespace(s[0]) && !IsWhitespace(s[|s| - 1]))
    ensures Trim(s) == s
  {
  }

  /** `strings.map((s) => s.trim())`. */
  function TrimAll(ss: seq<string>): (r: seq<string>)
    ensures |r| == |ss|
    ensures forall i :: 0 <= i < |r| ==> r[i] == Trim(ss[i])
  {
    seq(|ss|, i requires 0 <= i < |ss| => Trim(ss[i]))
  }
}
