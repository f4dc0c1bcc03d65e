/**
 * The few JavaScript string operations the router and the validation parser rely on:
 * `split` and `join` with a one-character separator, and `trim`.
 * Strings are sequences of Unicode scalar values.
 */
module Text {

  /** JavaScript `Array.prototype.join` with a one-character separator. */
  function Join(parts: seq<string>, c: char): (s: string)
    ensures parts == [] ==> s == ""
    decreases |parts|
  {
    if parts == [] then ""
    else if |parts| == 1 then parts[0]
    else parts[0] + [c] + Join(parts[1..], c)
  }

  /** The joined text starts with the first piece. */
  lemma {:induction false} JoinHead(parts: seq<string>, c: char)
    requires parts != []
    ensures parts[0] <= Join(parts, c)
  {
  }

  /** JavaScript `Array.prototype.join('')`: plain concatenation. */
  function Concat(parts: seq<string>): (s: string)
    ensures |parts| == 1 ==> s == parts[0]
    decreases |parts|
  {
    if parts == [] then "" else parts[0] + Concat(parts[1..])
  }

  /**
   * JavaScript `String.prototype.split` with a one-character separator: no piece holds the
   * separator, and joining the pieces gives `s` back.
   */
  function Split(s: string, c: char): (parts: seq<string>)
    ensures parts != []
    ensures forall i :: 0 <= i < |parts| ==> c !in parts[i]
    ensures Join(parts, c) == s
    decreases |s|
  {
    if s == [] then [""]
    else
      var rest := Split(s[1..], c);
      assert s == [s[0]] + s[1..];
      if s[0] == c then [""] + rest
      else [[s[0]] + rest[0]] + rest[1..]
  }

  /** A split yields one piece more than there are separators. */
  lemma {:induction false} SplitCount(s: string, c: char)
    ensures |Split(s, c)| == multiset(s)[c] + 1
    decreases |s|
  {
    if s != [] {
      SplitCount(s[1..], c);
      assert s == [s[0]] + s[1..];
    }
  }

  /** The text before the first `c` (the whole of `s` when there is none). */
  function Before(s: string, c: char): (r: string)
    ensures c !in r && r <= s
    ensures |r| < |s| ==> s[|r|] == c
  {
    SplitHead(s, c);
    Split(s, c)[0]
  }

  /** A separator-free head is kept whole by `Before`. */
  lemma {:induction false} BeforeAppend(a: string, b: string, c: char)
    requires c !in a
    ensures Before(a + b, c) == a + Before(b, c)
    decreases |a|
  {
    if a != [] {
      var s := a + b;
      BeforeAppend(a[1..], b, c);
      assert s[0] == a[0] != c && s[1..] == a[1..] + b;
      var rest := Split(s[1..], c);
      assert Split(s, c) == [[s[0]] + rest[0]] + rest[1..];
      assert Before(s, c) == [a[0]] + Before(a[1..] + b, c);
      calc {
        [a[0]] + (a[1..] + Before(b, c));
        ([a[0]] + a[1..]) + Before(b, c);
        { assert [a[0]] + a[1..] == a; }
        a + Before(b, c);
      }
    } else {
      assert a + b == b && a + Before(b, c) == Before(b, c);
    }
  }

  /** The first piece of a split is a prefix of the input, followed by the separator if anything follows. */
  lemma {:induction false} SplitHead(s: string, c: char)
    ensures Split(s, c)[0] <= s
    ensures |Split(s, c)[0]| < |s| ==> s[|Split(s, c)[0]|] == c
    decreases |s|
  {
    if s != [] {
      SplitHead(s[1..], c);
    }
  }

  /** Splitting a join of separator-free pieces gives the pieces back. */
  lemma {:induction false} SplitJoin(parts: seq<string>, c: char)
    requires |parts| >= 1
    requires forall i :: 0 <= i < |parts| ==> c !in parts[i]
    ensures Split(Join(parts, c), c) == parts
    decreases |parts|
  {
    if |parts| == 1 {
      SplitFree(parts[0], c);
    } else {
      SplitJoin(parts[1..], c);
      SplitAfter(parts[0], Join(parts[1..], c), c);
      assert parts == [parts[0]] + parts[1..];
    }
  }

  /** A separator-free text splits into itself. */
  lemma {:induction false} SplitFree(s: string, c: char)
    requires c !in s
    ensures Split(s, c) == [s]
    decreases |s|
  {
    if s != [] {
      SplitFree(s[1..], c);
      assert s == [s[0]] + s[1..];
    }
  }

  /** A separator-free head followed by the separator becomes the first piece on its own. */
  lemma {:induction false} SplitAfter(head: string, tail: string, c: char)
    requires c !in head
    ensures Split(head + [c] + tail, c) == [head] + Split(tail, c)
    decreases |head|
  {
    var s := head + [c] + tail;
    if head == [] {
      assert s[0] == c && s[1..] == tail;
    } else {
      assert s[0] == head[0] && s[1..] == head[1..] + [c] + tail;
      SplitAfter(head[1..], tail, c);
      var rest := Split(s[1..], c);
      assert rest == [head[1..]] + Split(tail, c);
      assert Split(s, c) == [[head[0]] + rest[0]] + rest[1..];
      assert [head[0]] + head[1..] == head;
    }
  }

  /**
   * The characters JavaScript's `String.prototype.trim` removes: WhiteSpace (tab, vertical tab,
   * form feed, U+FEFF and the space separators of category Zs) and LineTerminator.
   */
  predicate IsTrimmable(ch: char) {
    || ch == '\t' || ch == '\U{000B}' || ch == '\U{000C}' || ch == ' ' || ch == '\U{00A0}'
    || ch == '\U{FEFF}' || ch == '\U{1680}' || ('\U{2000}' <= ch <= '\U{200A}')
    || ch == '\U{202F}' || ch == '\U{205F}' || ch == '\U{3000}'
    || ch == '\n' || ch == '\r' || ch == '\U{2028}' || ch == '\U{2029}'
  }

  /** `s` without its leading trimmable characters: the longest suffix that starts with a kept character. */
  function TrimStart(s: string): (r: string)
    ensures |r| <= |s| && r == s[|s| - |r|..]
    ensures r != [] ==> !IsTrimmable(r[0])
    ensures forall k :: 0 <= k < |s| - |r| ==> IsTrimmable(s[k])
    decreases |s|
  {
    if s != [] && IsTrimmable(s[0]) then TrimStart(s[1..]) else s
  }

  /** `s` without its trailing trimmable characters: the longest prefix that ends with a kept character. */
  function TrimEnd(s: string): (r: string)
    ensures r <= s
    ensures r != [] ==> !IsTrimmable(r[|r| - 1])
    ensures forall k :: |r| <= k < |s| ==> IsTrimmable(s[k])
    decreases |s|
  {
    if s != [] && IsTrimmable(s[|s| - 1]) then TrimEnd(s[..|s| - 1]) else s
  }

  /** `r` is `s[i..j]` and everything of `s` outside that slice is trimmable. */
  predicate SliceWithin(s: string, r: string, i: int, j: int) {
    && 0 <= i <= j <= |s| && r == s[i..j]
    && (forall k :: 0 <= k < i ==> IsTrimmable(s[k]))
    && (forall k :: j <= k < |s| ==> IsTrimmable(s[k]))
  }

  /** JavaScript `String.prototype.trim`: a slice of `s` with only trimmable characters cut on either side. */
  function Trim(s: string): (r: string)
    ensures exists i, j :: SliceWithin(s, r, i, j)
    ensures r != [] ==> !IsTrimmable(r[0]) && !IsTrimmable(r[|r| - 1])
  {
    var e := TrimEnd(s);
    var r := TrimStart(e);
    TrimSlice(s, e, r);
    r
  }

  lemma TrimSlice(s: string, e: string, r: string)
    requires e == TrimEnd(s) && r == TrimStart(e)
    ensures SliceWithin(s, r, |e| - |r|, |e|)
  {
    SuffixOfPrefix(s, e, r);
    TrimmablePrefix(s, e, |e| - |r|);
  }

  /** A suffix `r` of a prefix `e` of `s` is the slice of `s` between their lengths. */
  lemma SuffixOfPrefix(s: string, e: string, r: string)
    requires e <= s && |r| <= |e| && r == e[|e| - |r|..]
    ensures r == s[|e| - |r|..|e|]
  {
    assert e == s[..|e|];
  }

  /** A trimmable run at the front of a prefix `e` of `s` is a trimmable run at the front of `s`. */
  lemma TrimmablePrefix(s: string, e: string, i: int)
    requires e <= s && 0 <= i <= |e|
    requires forall k :: 0 <= k < i ==> IsTrimmable(e[k])
    ensures forall k :: 0 <= k < i ==> IsTrimmable(s[k])
  {
    forall k | 0 <= k < i ensures IsTrimmable(s[k]) {
      assert s[k] == e[k];
    }
  }

  /** Text that neither starts nor ends with a trimmable character is left as it is. */
  lemma TrimKept(s: string)
    requires s != [] ==> !IsTrimmable(s[0]) && !IsTrimmable(s[|s| - 1])
    ensures Trim(s) == s
  {
    assert TrimEnd(s) == s;
    assert TrimStart(s) == s;
  }

  /** Text made only of trimmable characters trims to the empty string. */
  lemma TrimBlank(s: string)
    requires forall k :: 0 <= k < |s| ==> IsTrimmable(s[k])
    ensures Trim(s) == ""
  {
  }
}
