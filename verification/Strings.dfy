/** The string operations that the DNS code is made of, and what they do to dotted names. */
module Strings {

  predicate HasSuffix(s: string, t: string) {
    |t| <= |s| && s[|s| - |t|..] == t
  }

  function TrimSuffix(s: string, t: string): string {
    if HasSuffix(s, t) then s[..|s| - |t|] else s
  }

  predicate HasPrefix(s: string, t: string) {
    |t| <= |s| && s[..|t|] == t
  }

  function TrimPrefix(s: string, t: string): string {
    if HasPrefix(s, t) then s[|t|..] else s
  }

  predicate DotFree(s: string) {
    '.' !in s
  }

  /** strings.Split(s, "."): never empty, and the empty string has one empty part. */
  function Split(s: string): (parts: seq<string>)
    ensures |parts| >= 1
  {
    if s == "" then [""]
    else
      var rest := Split(s[1..]);
      if s[0] == '.' then [""] + rest else [[s[0]] + rest[0]] + rest[1..]
  }

  /** strings.Join(parts, "."). */
  function Join(parts: seq<string>): string {
    if |parts| == 0 then ""
    else if |parts| == 1 then parts[0]
    else parts[0] + "." + Join(parts[1..])
  }

  function LowerChar(c: char): char {
    if 'A' <= c <= 'Z' then c + 32 as char else c
  }

  /** strings.ToLower on the letters that occur in host names. */
  function ToLower(s: string): (r: string)
    ensures |r| == |s|
    ensures forall i :: 0 <= i < |s| ==> r[i] == LowerChar(s[i])
  {
    if s == "" then "" else [LowerChar(s[0])] + ToLower(s[1..])
  }

  // ---------------------------------------------------------------- suffixes

  lemma SuffixIff(s: string, t: string)
    ensures HasSuffix(s, t) <==> exists a :: s == a + t
    ensures HasSuffix(s, t) ==> s == TrimSuffix(s, t) + t
  {
    if HasSuffix(s, t) {
      assert s == s[..|s| - |t|] + t;
    }
    if a :| s == a + t {
      assert s[|a|..] == t;
    }
  }

  lemma TrimAppended(a: string, t: string)
    ensures HasSuffix(a + t, t) && TrimSuffix(a + t, t) == a
  {
    assert (a + t)[|a|..] == t && (a + t)[..|a|] == a;
  }

  /** Of two suffixes of one string the shorter is a suffix of the longer. */
  lemma SuffixOfSuffix(s: string, t: string, u: string)
    requires HasSuffix(s, t) && HasSuffix(s, u) && |u| <= |t|
    ensures HasSuffix(t, u)
  {
    assert s[|s| - |t|..][|t| - |u|..] == s[|s| - |u|..];
  }

  lemma SuffixOfAppended(a: string, t: string, u: string)
    ensures |u| <= |t| ==> (HasSuffix(a + t, u) <==> HasSuffix(t, u))
    ensures HasSuffix(t, u) ==> HasSuffix(a + t, u)
  {
    if |u| <= |t| {
      assert (a + t)[|a + t| - |u|..] == t[|t| - |u|..];
    }
  }

  lemma EndsWithDot(s: string)
    ensures HasSuffix(s, ".") <==> s != "" && s[|s| - 1] == '.'
  {
  }

  lemma EndsWithTwoDots(s: string)
    ensures HasSuffix(s, "..") <==> |s| >= 2 && s[|s| - 1] == '.' && s[|s| - 2] == '.'
  {
    if |s| >= 2 {
      assert s[|s| - 2..] == [s[|s| - 2], s[|s| - 1]];
    }
  }

  lemma TrimDot(s: string)
    ensures s != "" && s[|s| - 1] == '.' ==> TrimSuffix(s, ".") == s[..|s| - 1]
    ensures s == "" || s[|s| - 1] != '.' ==> TrimSuffix(s, ".") == s
    ensures TrimSuffix(s + ".", ".") == s
  {
    EndsWithDot(s);
    TrimAppended(s, ".");
  }

  lemma TrimDotOfAppended(a: string, s: string)
    requires s != ""
    ensures TrimSuffix(a + s, ".") == a + TrimSuffix(s, ".")
  {
    TrimDot(s);
    TrimDot(a + s);
    assert (a + s)[|a + s| - 1] == s[|s| - 1];
    if s[|s| - 1] == '.' {
      assert (a + s)[..|a + s| - 1] == a + s[..|s| - 1];
    }
  }

  // ----------------------------------------------------------- split and join

  lemma {:induction false} JoinSplit(s: string)
    ensures Join(Split(s)) == s
  {
    if s != "" {
      JoinSplit(s[1..]);
      var rest := Split(s[1..]);
      if s[0] == '.' {
        assert ([""] + rest)[1..] == rest;
        assert s == "." + s[1..];
      } else {
        var parts := [[s[0]] + rest[0]] + rest[1..];
        assert parts[1..] == rest[1..];
        assert Join(parts) == [s[0]] + Join(rest);
        assert s == [s[0]] + s[1..];
      }
    }
  }

  lemma {:induction false} SplitPartsAreDotFree(s: string)
    ensures forall i :: 0 <= i < |Split(s)| ==> DotFree(Split(s)[i])
  {
    if s != "" {
      SplitPartsAreDotFree(s[1..]);
    }
  }

  lemma {:induction false} SplitAtDot(a: string, b: string)
    ensures Split(a + "." + b) == Split(a) + Split(b)
  {
    var s := a + "." + b;
    if a == "" {
      assert s == "." + b && s[1..] == b;
      assert Split(s) == [""] + Split(b);
    } else {
      var tail := a[1..] + "." + b;
      assert s[0] == a[0] && s[1..] == tail;
      SplitAtDot(a[1..], b);
      SplitConcatFirst(a[0], Split(a[1..]), Split(b));
    }
  }

  /** How one more character in front changes the parts, with or without parts behind them. */
  lemma SplitConcatFirst(c: char, parts: seq<string>, more: seq<string>)
    requires |parts| >= 1
    ensures [""] + (parts + more) == ([""] + parts) + more
    ensures [[c] + (parts + more)[0]] + (parts + more)[1..] == ([[c] + parts[0]] + parts[1..]) + more
  {
  }

  lemma {:induction false} SplitDotFree(s: string)
    requires DotFree(s)
    ensures Split(s) == [s]
  {
    if s != "" {
      SplitDotFree(s[1..]);
      assert [s[0]] + s[1..] == s;
    }
  }

  lemma {:induction false} JoinAtLast(parts: seq<string>)
    requires |parts| >= 2
    ensures Join(parts) == Join(parts[..|parts| - 1]) + "." + parts[|parts| - 1]
  {
    var k := |parts| - 1;
    if k >= 2 {
      JoinAtLast(parts[1..]);
      assert parts[1..][..k - 1] == parts[..k][1..];
    } else {
      assert parts[1..] == [parts[1]];
      assert parts[..1] == [parts[0]];
    }
  }

  /** `d` is `n` or what remains of it after one of its dots. */
  predicate LabelSuffix(n: string, d: string) {
    n == d || HasSuffix(n, "." + d)
  }

  lemma BelowIsLabelSuffix(a: string, n: string)
    ensures LabelSuffix(a + "." + n, n)
  {
    assert a + "." + n == a + ("." + n);
    TrimAppended(a, "." + n);
  }

  lemma LabelSuffixTransitive(n: string, d: string, e: string)
    requires LabelSuffix(n, d) && LabelSuffix(d, e)
    ensures LabelSuffix(n, e)
  {
    if n != d && d != e {
      SuffixIff(n, "." + d);
      SuffixIff(d, "." + e);
      var a :| n == a + ("." + d);
      var b :| d == b + ("." + e);
      assert n == (a + "." + b) + ("." + e);
      SuffixIff(n, "." + e);
    }
  }

  /** Behind a dot-free label, the suffixes at label boundaries are those of what follows. */
  lemma SuffixBelowLabel(first: string, n: string, d: string)
    requires DotFree(first)
    ensures HasSuffix(first + "." + n, "." + d) <==> LabelSuffix(n, d)
  {
    var s := first + "." + n;
    if HasSuffix(s, "." + d) && |d| >= |n| {
      var at := |s| - |d| - 1;
      assert s[at..] == "." + d;
      assert s[at] == '.';
      assert forall i :: 0 <= i < |first| ==> s[i] == first[i] != '.';
      assert s[at + 1..] == d && s[|first| + 1..] == n;
    } else if |d| < |n| {
      SuffixOfAppended(first + ".", n, "." + d);
      assert s == (first + ".") + n;
    }
    if n == d {
      BelowIsLabelSuffix(first, n);
    }
  }

  /** The joins of the trailing parts of a name are exactly its suffixes at label boundaries. */
  lemma TrailingPartsAreLabelSuffixes(n: string, d: string)
    ensures LabelSuffix(n, d) <==> exists i :: 0 <= i < |Split(n)| && Join(Split(n)[i..]) == d
  {
    if LabelSuffix(n, d) {
      if n == d {
        JoinSplit(n);
        assert Split(n)[0..] == Split(n);
      } else {
        SuffixIff(n, "." + d);
        var a :| n == a + ("." + d);
        assert n == a + "." + d;
        SplitAtDot(a, d);
        JoinSplit(d);
        assert Split(n)[|Split(a)|..] == Split(d);
      }
    }
    if i :| 0 <= i < |Split(n)| && Join(Split(n)[i..]) == d {
      TrailingPartIsLabelSuffix(n, i);
    }
  }

  lemma TrailingPartIsLabelSuffix(n: string, i: nat)
    requires i < |Split(n)|
    ensures LabelSuffix(n, Join(Split(n)[i..]))
  {
    JoinSplit(n);
    JoinTail(Split(n), i);
  }

  lemma {:induction false} JoinTail(parts: seq<string>, i: nat)
    requires i < |parts|
    ensures LabelSuffix(Join(parts), Join(parts[i..]))
  {
    if i == 0 {
      assert parts[0..] == parts;
    } else {
      var tail := parts[1..];
      JoinTail(tail, i - 1);
      assert tail[i - 1..] == parts[i..];
      JoinFirst(parts);
      BelowIsLabelSuffix(parts[0], Join(tail));
      LabelSuffixTransitive(Join(parts), Join(tail), Join(parts[i..]));
    }
  }

  lemma JoinFirst(parts: seq<string>)
    requires |parts| >= 2
    ensures Join(parts) == parts[0] + "." + Join(parts[1..])
  {
  }

  // -------------------------------------------------------------- lower case

  /** The same letter, whatever its case, or the same other character. */
  predicate SameLetter(c: char, d: char) {
    c == d || ('A' <= c <= 'Z' && d as int == c as int + 32) || ('A' <= d <= 'Z' && c as int == d as int + 32)
  }

  predicate SameIgnoringCase(s: string, t: string) {
    |s| == |t| && forall i :: 0 <= i < |s| ==> SameLetter(s[i], t[i])
  }

  lemma LowerCharIff(c: char, d: char)
    ensures LowerChar(c) == LowerChar(d) <==> SameLetter(c, d)
  {
  }

  lemma ToLowerIff(s: string, t: string)
    ensures ToLower(s) == ToLower(t) <==> SameIgnoringCase(s, t)
  {
    if |s| == |t| {
      forall i | 0 <= i < |s|
        ensures ToLower(s)[i] == ToLower(t)[i] <==> SameLetter(s[i], t[i])
      {
        LowerCharIff(s[i], t[i]);
      }
    }
  }

  lemma {:induction false} ToLowerTwice(s: string)
    ensures ToLower(ToLower(s)) == ToLower(s)
  {
    var t := ToLower(s);
    assert forall i :: 0 <= i < |t| ==> LowerChar(t[i]) == t[i];
  }

  lemma ToLowerBelow(a: string, b: string)
    ensures ToLower(a + "." + b) == ToLower(a) + "." + ToLower(b)
  {
    var s := a + "." + b;
    assert s[|a|] == '.';
    assert forall i :: 0 <= i < |b| ==> s[|a| + 1 + i] == b[i];
  }

  lemma ToLowerDots(s: string)
    ensures HasSuffix(ToLower(s), ".") <==> HasSuffix(s, ".")
  {
    EndsWithDot(s);
    EndsWithDot(ToLower(s));
  }
}
