/** The Python string primitives the pipeline is built from: `str.split()`
    with no argument, `str.strip()`, `sep.join(parts)`, `str.split(c)` for a
    one-character separator, `startswith`/`endswith` and ASCII `upper()`. */
module Text {

  /** The characters Python's `str.split()` and `str.strip()` treat as
      whitespace (the code points for which `str.isspace()` holds). */
  predicate IsSpace(c: char) {
    var n := c as int;
    || 0x09 <= n <= 0x0D
    || 0x1C <= n <= 0x20
    || n == 0x85 || n == 0xA0 || n == 0x1680
    || 0x2000 <= n <= 0x200A
    || n == 0x2028 || n == 0x2029 || n == 0x202F || n == 0x205F || n == 0x3000
  }

  predicate StartsWith(s: string, prefix: string) {
    |prefix| <= |s| && s[..|prefix|] == prefix
  }

  predicate EndsWith(s: string, suffix: string) {
    |suffix| <= |s| && s[|s| - |suffix|..] == suffix
  }

  /** `s.lstrip()` */
  function StripLeft(s: string): (r: string)
    ensures |r| <= |s| && r == s[|s| - |r|..]
    ensures |r| > 0 ==> !IsSpace(r[0])
    ensures forall k :: 0 <= k < |s| - |r| ==> IsSpace(s[k])
    decreases |s|
  {
    if |s| > 0 && IsSpace(s[0]) then StripLeft(s[1..]) else s
  }

  /** `s.rstrip()` */
  function StripRight(s: string): (r: string)
    ensures |r| <= |s| && r == s[..|r|]
    ensures |r| > 0 ==> !IsSpace(r[|r| - 1])
    ensures forall k :: |r| <= k < |s| ==> IsSpace(s[k])
    decreases |s|
  {
    if |s| > 0 && IsSpace(s[|s| - 1]) then StripRight(s[..|s| - 1]) else s
  }

  /** `s.strip()`: the slice of `s` left once leading and trailing
      whitespace is removed. */
  function Strip(s: string): (r: string)
    ensures |r| > 0 ==> !IsSpace(r[0]) && !IsSpace(r[|r| - 1])
    ensures r <= StripLeft(s) == s[|s| - |StripLeft(s)|..]
  {
    StripRight(StripLeft(s))
  }

  /** What `strip` removes is whitespace and nothing else: the stripped
      string is the slice of `s` from the end of its leading whitespace,
      and everything after that slice is whitespace too. */
  lemma StripRemovesSpace(s: string)
    ensures var r := Strip(s);
      var lead := |s| - |StripLeft(s)|;
      && lead + |r| <= |s| && r == s[lead..lead + |r|]
      && (forall k :: 0 <= k < lead ==> IsSpace(s[k]))
      && (forall k :: lead + |r| <= k < |s| ==> IsSpace(s[k]))
  {
    var l := StripLeft(s);
    SliceOfSuffix(s, |s| - |l|, l, StripRight(l));
  }

  /** A prefix `r` of the suffix `l` of `s` from `lead` on is a prefix of
      `l` and the slice of `s` from `lead`; when what follows `r` in `l` is whitespace, so is
      what follows it in `s`. */
  lemma SliceOfSuffix(s: string, lead: nat, l: string, r: string)
    requires lead <= |s| && l == s[lead..] && |r| <= |l| && r == l[..|r|]
    requires forall k :: |r| <= k < |l| ==> IsSpace(l[k])
    ensures r <= l
    ensures lead + |r| <= |s| && r == s[lead..lead + |r|]
    ensures forall k :: lead + |r| <= k < |s| ==> IsSpace(s[k])
  {
    forall k | lead + |r| <= k < |s|
      ensures IsSpace(s[k])
    {
      assert s[k] == l[k - lead];
    }
  }

  /** No leading or trailing whitespace. */
  predicate IsStripped(s: string) {
    |s| == 0 || (!IsSpace(s[0]) && !IsSpace(s[|s| - 1]))
  }

  /** `s.strip() == s` exactly when `s` has no leading or trailing
      whitespace. */
  lemma StrippedIff(s: string)
    ensures Strip(s) == s <==> IsStripped(s)
  {
    if IsStripped(s) && |s| > 0 {
      assert StripLeft(s) == s;
      assert StripRight(s) == s;
    }
  }

  /** Stripping a stripped string changes nothing. */
  lemma StripIdempotent(s: string)
    ensures Strip(Strip(s)) == Strip(s)
  {
    var t := Strip(s);
    assert StripLeft(t) == t;
    assert StripRight(t) == t;
  }

  /** A word of `str.split()`: non-empty and free of whitespace. */
  predicate IsWord(w: string) {
    |w| > 0 && forall k :: 0 <= k < |w| ==> !IsSpace(w[k])
  }

  /** Length of the whitespace-free prefix of `s`. */
  function WordLen(s: string): (n: nat)
    ensures n <= |s|
    ensures forall k :: 0 <= k < n ==> !IsSpace(s[k])
    ensures n < |s| ==> IsSpace(s[n])
  {
    if |s| == 0 || IsSpace(s[0]) then 0 else 1 + WordLen(s[1..])
  }

  /** `s.split()`: the maximal whitespace-free runs of `s`, in order. */
  function Words(s: string): (ws: seq<string>)
    ensures forall i :: 0 <= i < |ws| ==> IsWord(ws[i])
    decreases |s|
  {
    if |s| == 0 then []
    else if IsSpace(s[0]) then Words(s[1..])
    else
      var n := WordLen(s);
      [s[..n]] + Words(s[n..])
  }

  /** `sep.join(parts)` */
  function Join(parts: seq<string>, sep: string): string {
    if |parts| == 0 then ""
    else if |parts| == 1 then parts[0]
    else parts[0] + sep + Join(parts[1..], sep)
  }

  /** `" ".join(s.split())`: runs of whitespace collapsed to one space,
      leading and trailing whitespace dropped. */
  function Collapse(s: string): string {
    Join(Words(s), " ")
  }

  /** A string in collapsed form: no leading or trailing whitespace, no
      whitespace but the plain space, and never two whitespace characters
      side by side. */
  predicate Normalized(s: string) {
    && (|s| > 0 ==> !IsSpace(s[0]) && !IsSpace(s[|s| - 1]))
    && (forall i :: 0 <= i < |s| && IsSpace(s[i]) ==> s[i] == ' ')
    && (forall i, j :: 0 <= i && j == i + 1 < |s| && IsSpace(s[j]) ==> !IsSpace(s[i]))
  }

  lemma WordLenOfWord(w: string, rest: string)
    requires IsWord(w)
    requires |rest| == 0 || IsSpace(rest[0])
    ensures WordLen(w + rest) == |w|
  {
    var s := w + rest;
    assert forall k :: 0 <= k < |w| ==> s[k] == w[k];
    assert |rest| > 0 ==> s[|w|] == rest[0];
  }

  /** Splitting words joined with single spaces gives the words back. */
  lemma {:induction false} WordsOfJoin(ws: seq<string>)
    requires forall i :: 0 <= i < |ws| ==> IsWord(ws[i])
    ensures Words(Join(ws, " ")) == ws
    decreases |ws|
  {
    if |ws| == 0 {
    } else if |ws| == 1 {
      var w := ws[0];
      WordLenOfWord(w, "");
      assert w + "" == w;
      assert w[..|w|] == w && w[|w|..] == "";
    } else {
      var w := ws[0];
      var j := Join(ws[1..], " ");
      var s := w + " " + j;
      assert s == w + (" " + j);
      WordLenOfWord(w, " " + j);
      assert s[..|w|] == w;
      assert s[|w|..] == " " + j;
      assert (" " + j)[1..] == j;
      WordsOfJoin(ws[1..]);
      assert ws == [w] + ws[1..];
    }
  }

  /** Joining words with single spaces yields a string in collapsed form. */
  lemma {:induction false} JoinOfWordsNormalized(ws: seq<string>)
    requires forall i :: 0 <= i < |ws| ==> IsWord(ws[i])
    ensures Normalized(Join(ws, " "))
    ensures |ws| > 0 ==> |Join(ws, " ")| > 0
    decreases |ws|
  {
    if |ws| == 0 {
    } else if |ws| == 1 {
    } else {
      var w := ws[0];
      var j := Join(ws[1..], " ");
      JoinOfWordsNormalized(ws[1..]);
      var s := w + " " + j;
      forall i | 0 <= i < |s| && IsSpace(s[i])
        ensures s[i] == ' '
        ensures i > 0 ==> !IsSpace(s[i - 1])
      {
        if i == |w| {
          assert s[i - 1] == w[|w| - 1];
        } else {
          assert s[i] == j[i - |w| - 1];
          if i > |w| + 1 {
            assert s[i - 1] == j[i - |w| - 2];
          }
        }
      }
      assert s[0] == w[0];
      assert s[|s| - 1] == j[|j| - 1];
    }
  }

  /** After the first word of a normalized string that has more than one
      word come a single space and a normalized rest. */
  lemma NormalizedAfterFirstWord(s: string)
    requires Normalized(s) && WordLen(s) < |s|
    ensures 0 < WordLen(s) && WordLen(s) + 1 < |s| && s[WordLen(s)] == ' '
    ensures Normalized(s[WordLen(s) + 1..])
  {
    var n := WordLen(s);
    var rest := s[n + 1..];
    assert rest[0] == s[n + 1];
    forall i | 0 <= i < |rest| && IsSpace(rest[i])
      ensures rest[i] == ' '
      ensures i > 0 ==> !IsSpace(rest[i - 1])
    {
      assert rest[i] == s[n + 1 + i];
      if i > 0 {
        assert rest[i - 1] == s[n + i];
      }
    }
    assert rest[|rest| - 1] == s[|s| - 1];
  }

  /** A string is the part before position `n`, the character at `n` and
      the part after it. */
  lemma SplitAround(s: string, n: nat)
    requires n < |s|
    ensures s == s[..n] + [s[n]] + s[n + 1..]
  {
  }

  /** One step of re-joining the words of a string whose first word is
      followed by a single space and more words. */
  lemma JoinWordsStep(s: string, rest: string)
    requires 0 < WordLen(s) < |s| && s[WordLen(s)] == ' '
    requires rest == s[WordLen(s) + 1..] && |rest| > 0 && !IsSpace(rest[0])
    ensures Join(Words(s), " ") == s[..WordLen(s)] + " " + Join(Words(rest), " ")
  {
    var n := WordLen(s);
    assert s[n..][1..] == rest;
    var tail := Words(rest);
    assert Words(s) == [s[..n]] + tail;
    assert ([s[..n]] + tail)[1..] == tail;
  }

  /** The words of a normalized string, re-joined, are that string. */
  lemma {:induction false} NormalizedFixpoint(s: string)
    requires Normalized(s)
    ensures Join(Words(s), " ") == s
    decreases |s|
  {
    if |s| > 0 {
      var n := WordLen(s);
      if n == |s| {
        assert s[..n] == s && s[n..] == "";
      } else {
        NormalizedAfterFirstWord(s);
        var rest := s[n + 1..];
        NormalizedFixpoint(rest);
        JoinWordsStep(s, rest);
        SplitAround(s, n);
      }
    }
  }

  /** Collapsing always produces the collapsed form, keeps the words, is
      idempotent, and leaves exactly the already-collapsed strings unchanged. */
  lemma CollapseSpec(s: string)
    ensures Normalized(Collapse(s))
    ensures Words(Collapse(s)) == Words(s)
    ensures Collapse(Collapse(s)) == Collapse(s)
    ensures Collapse(s) == s <==> Normalized(s)
    ensures Collapse(s) == "" <==> Words(s) == []
  {
    JoinOfWordsNormalized(Words(s));
    WordsOfJoin(Words(s));
    if Normalized(s) {
      NormalizedFixpoint(s);
    }
  }

  /** The first position of `c` in `s`. */
  function IndexOf(s: string, c: char): (i: nat)
    requires c in s
    ensures i < |s| && s[i] == c && c !in s[..i]
  {
    if s[0] == c then 0 else 1 + IndexOf(s[1..], c)
  }

  /** `s.split(c)` for a one-character separator `c`. */
  function Split(s: string, c: char): (parts: seq<string>)
    ensures |parts| > 0
    ensures forall i :: 0 <= i < |parts| ==> c !in parts[i]
    decreases |s|
  {
    if c in s then
      var i := IndexOf(s, c);
      [s[..i]] + Split(s[i + 1..], c)
    else [s]
  }

  /** Splitting on a separator that occurs in no part undoes the join. */
  lemma {:induction false} SplitJoin(parts: seq<string>, c: char)
    requires |parts| > 0
    requires forall i :: 0 <= i < |parts| ==> c !in parts[i]
    ensures Split(Join(parts, [c]), c) == parts
    decreases |parts|
  {
    if |parts| == 1 {
      assert Join(parts, [c]) == parts[0];
    } else {
      var p := parts[0];
      var j := Join(parts[1..], [c]);
      assert Join(parts, [c]) == p + [c] + j;
      SplitAfter(p, c, j);
      SplitJoin(parts[1..], c);
      assert parts == [p] + parts[1..];
    }
  }

  /** In `p + [c] + j` with no `c` in `p`, the first `c` is the one after `p`. */
  lemma SplitAfter(p: string, c: char, j: string)
    requires c !in p
    ensures Split(p + [c] + j, c) == [p] + Split(j, c)
  {
    SeparatorAfter(p, c, j);
  }

  lemma SeparatorAfter(p: string, c: char, j: string)
    requires c !in p
    ensures var s := p + [c] + j;
      c in s && IndexOf(s, c) == |p| && s[..|p|] == p && s[|p| + 1..] == j
  {
    var s := p + [c] + j;
    assert s[|p|] == c;
    assert s[..|p|] == p;
  }

  /** Joining the parts of a split with the separator restores the string. */
  lemma {:induction false} JoinSplit(s: string, c: char)
    ensures Join(Split(s, c), [c]) == s
    decreases |s|
  {
    if c in s {
      var i := IndexOf(s, c);
      JoinSplit(s[i + 1..], c);
      assert s == s[..i] + [c] + s[i + 1..];
    }
  }

  /** ASCII `upper()` of one character. */
  function UpperChar(c: char): (u: char)
    ensures 'a' <= c <= 'z' ==> 'A' <= u <= 'Z' && u as int == c as int - 32
    ensures !('a' <= c <= 'z') ==> u == c
  {
    if 'a' <= c <= 'z' then (c as int - 32) as char else c
  }

  /** `s.upper()` on the ASCII letters; other characters are kept. */
  function Upper(s: string): (r: string)
    ensures |r| == |s|
    ensures forall i :: 0 <= i < |s| ==> r[i] == UpperChar(s[i])
    ensures forall i :: 0 <= i < |r| ==> !('a' <= r[i] <= 'z')
  {
    seq(|s|, i requires 0 <= i < |s| => UpperChar(s[i]))
  }

  /** Upper-casing introduces no character that is not an upper-case
      letter. */
  lemma UpperAvoids(s: string, c: char)
    requires c !in s && !('A' <= c <= 'Z')
    ensures c !in Upper(s)
  {
    var u := Upper(s);
    forall i | 0 <= i < |u|
      ensures u[i] != c
    {
      assert s[i] != c;
    }
  }
}
