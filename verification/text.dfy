/** The pieces of java.lang.String that query splitting relies on:
    `indexOf(char)`, `trim()` and `split(String)` with a one-character,
    non-metacharacter separator and the default limit of zero. */
module Text {

  /** `s.indexOf(c)`: the position of the first `c` in `s`, or -1. */
  function IndexOf(s: string, c: char): (idx: int)
    ensures -1 <= idx < |s|
    ensures idx == -1 <==> c !in s
    ensures 0 <= idx ==> s[idx] == c && c !in s[..idx]
  {
    if |s| == 0 then -1
    else if s[0] == c then 0
    else
      var k := IndexOf(s[1..], c);
      assert k >= 0 ==> s[..k + 1] == [s[0]] + s[1..][..k];
      if k == -1 then -1 else k + 1
  }

  // ---------------------------------------------------------------------
  // trim()

  /** A character that `trim()` removes: every code point up to U+0020. */
  predicate IsTrimmable(c: char) {
    c <= ' '
  }

  /** A string made only of trimmable characters. */
  predicate IsBlank(s: string) {
    forall i :: 0 <= i < |s| ==> IsTrimmable(s[i])
  }

  /** `s` without its leading trimmable characters. */
  function TrimStart(s: string): (r: string)
    ensures |r| <= |s| && r == s[|s| - |r|..]
    ensures |r| == 0 || !IsTrimmable(r[0])
    ensures IsBlank(s[..|s| - |r|])
  {
    if |s| > 0 && IsTrimmable(s[0]) then
      var r := TrimStart(s[1..]);
      assert s[..|s| - |r|] == [s[0]] + s[1..][..|s[1..]| - |r|];
      r
    else s
  }

  /** `s` without its trailing trimmable characters. */
  function TrimEnd(s: string): (r: string)
    ensures |r| <= |s| && r == s[..|r|]
    ensures |r| == 0 || !IsTrimmable(r[|r| - 1])
    ensures IsBlank(s[|r|..])
  {
    if |s| > 0 && IsTrimmable(s[|s| - 1]) then
      var r := TrimEnd(s[..|s| - 1]);
      assert s[|r|..] == s[..|s| - 1][|r|..] + [s[|s| - 1]];
      r
    else s
  }

  /** `s.trim()`: both ends stripped, as the platform's String does. */
  function Trim(s: string): string {
    TrimEnd(TrimStart(s))
  }

  /** `trim()` leaves nothing exactly when every character is trimmable. */
  lemma TrimEmptyIffBlank(s: string)
    ensures |Trim(s)| == 0 <==> IsBlank(s)
  {
    var a := TrimStart(s);
    if |Trim(s)| == 0 {
      assert a[0..] == a;
      assert |a| == 0;
      assert s[..|s| - |a|] == s;
    } else {
      var r := Trim(s);
      assert r == a[..|r|];
      assert a == s[|s| - |a|..];
      assert r[0] == s[|s| - |a|];
      assert !IsTrimmable(s[|s| - |a|]);
    }
  }

  // ---------------------------------------------------------------------
  // split()

  /** Every piece of `s` between separators, empty pieces included; the
      inverse of Join (JoinSplit, SplitJoin). */
  function Split(s: string, sep: char): (parts: seq<string>)
    ensures |parts| >= 1
    ensures forall i :: 0 <= i < |parts| ==> sep !in parts[i]
    decreases |s|
  {
    var idx := IndexOf(s, sep);
    if idx == -1 then [s]
    else
      var rest := Split(s[idx + 1..], sep);
      SplitStep(s[..idx], sep, rest);
      [s[..idx]] + rest
  }

  /** One step of Split: a separator-free head before separator-free pieces. */
  lemma SplitStep(head: string, sep: char, rest: seq<string>)
    requires sep !in head
    requires forall i :: 0 <= i < |rest| ==> sep !in rest[i]
    ensures forall i :: 0 <= i < |[head] + rest| ==> sep !in ([head] + rest)[i]
  {
    forall i | 0 <= i < |[head] + rest| ensures sep !in ([head] + rest)[i] {
      if i > 0 { assert ([head] + rest)[i] == rest[i - 1]; }
    }
  }

  /** Gluing the pieces back together gives the text that was split. */
  lemma {:induction false} JoinSplit(s: string, sep: char)
    ensures Join(Split(s, sep), sep) == s
    decreases |s|
  {
    var idx := IndexOf(s, sep);
    if idx != -1 {
      var rest := Split(s[idx + 1..], sep);
      JoinSplit(s[idx + 1..], sep);
      assert Split(s, sep) == [s[..idx]] + rest;
      assert ([s[..idx]] + rest)[1..] == rest;
      assert s == s[..idx] + [sep] + s[idx + 1..];
    }
  }

  /** The parts glued back together with one separator between neighbours. */
  function Join(parts: seq<string>, sep: char): string
  {
    if |parts| == 0 then ""
    else if |parts| == 1 then parts[0]
    else parts[0] + [sep] + Join(parts[1..], sep)
  }

  /** `parts` without its run of trailing empty strings. */
  function DropTrailingEmpty(parts: seq<string>): (r: seq<string>)
    ensures |r| <= |parts| && r == parts[..|r|]
    ensures |r| == 0 || r[|r| - 1] != ""
    ensures forall i :: |r| <= i < |parts| ==> parts[i] == ""
  {
    if |parts| > 0 && parts[|parts| - 1] == "" then DropTrailingEmpty(parts[..|parts| - 1])
    else parts
  }

  /** A piece standing before a non-empty piece is never dropped. */
  lemma DropKeepsBeforeNonEmpty(parts: seq<string>, i: int, k: int)
    requires 0 <= i <= k < |parts| && parts[k] != ""
    ensures i < |DropTrailingEmpty(parts)| && DropTrailingEmpty(parts)[i] == parts[i]
  {
  }

  /** `s.split(String.valueOf(sep))`: a string without the separator comes
      back whole (even when it is empty); otherwise the pieces, with the
      trailing empty ones removed. */
  function JavaSplit(s: string, sep: char): seq<string>
  {
    if sep !in s then [s] else DropTrailingEmpty(Split(s, sep))
  }

  /** The pieces JavaSplit returns are the leading pieces of Split, in order,
      hold no separator, and the pieces it leaves off are all empty; when the
      separator occurs, no trailing empty piece is kept. */
  lemma JavaSplitPieces(s: string, sep: char)
    ensures var r := JavaSplit(s, sep);
            && |r| <= |Split(s, sep)|
            && r == Split(s, sep)[..|r|]
            && (forall i :: 0 <= i < |r| ==> sep !in r[i])
            && (forall i :: |r| <= i < |Split(s, sep)| ==> Split(s, sep)[i] == "")
            && (sep !in s ==> r == [s])
            && (sep in s ==> |r| == 0 || r[|r| - 1] != "")
  {
    var p := Split(s, sep);
    if sep !in s {
      assert p == [s];
    } else {
      var r := DropTrailingEmpty(p);
      assert forall i :: 0 <= i < |r| ==> r[i] == p[i];
    }
  }

  /** When the last piece is not empty, Java's split drops nothing. */
  lemma JavaSplitLastNonEmpty(s: string, sep: char)
    requires Split(s, sep)[|Split(s, sep)| - 1] != ""
    ensures JavaSplit(s, sep) == Split(s, sep)
  {
    if sep !in s {
      assert IndexOf(s, sep) == -1;
    }
  }

  /** A join of empty parts is made of separators only. */
  lemma {:induction false} JoinOfEmptyParts(parts: seq<string>, sep: char, k: int)
    requires forall i :: 0 <= i < |parts| ==> parts[i] == ""
    requires 0 <= k < |Join(parts, sep)|
    ensures Join(parts, sep)[k] == sep
  {
    if |parts| >= 2 {
      assert Join(parts, sep) == [sep] + Join(parts[1..], sep);
      if k > 0 {
        JoinOfEmptyParts(parts[1..], sep, k - 1);
      }
    }
  }

  /** Join of a concatenation is the two joins with a separator between. */
  lemma {:induction false} JoinAppend(a: seq<string>, b: seq<string>, sep: char)
    requires |a| > 0 && |b| > 0
    ensures Join(a + b, sep) == Join(a, sep) + [sep] + Join(b, sep)
  {
    if |a| == 1 {
      assert (a + b)[1..] == b;
    } else {
      assert (a + b)[1..] == a[1..] + b;
      JoinAppend(a[1..], b, sep);
    }
  }

  /** Split is the only way to cut `s` into separator-free parts: splitting
      a join of such parts gives the parts back. */
  lemma {:induction false} SplitJoin(parts: seq<string>, sep: char)
    requires |parts| > 0
    requires forall i :: 0 <= i < |parts| ==> sep !in parts[i]
    ensures Split(Join(parts, sep), sep) == parts
  {
    var s := Join(parts, sep);
    if |parts| == 1 {
      assert IndexOf(s, sep) == -1;
    } else {
      var p0, rest := parts[0], Join(parts[1..], sep);
      assert s == p0 + [sep] + rest;
      assert IndexOf(s, sep) == |p0| by {
        assert s[..|p0|] == p0;
        assert s[|p0|] == sep;
      }
      assert Split(s, sep) == [p0] + Split(rest, sep) by {
        assert s[..|p0|] == p0;
        assert s[|p0| + 1..] == rest;
      }
      assert Split(rest, sep) == parts[1..] by {
        SplitJoin(parts[1..], sep);
      }
      assert [p0] + parts[1..] == parts;
    }
  }

  /** Splitting around one separator splits the two sides independently. */
  lemma SplitAround(a: string, b: string, sep: char)
    ensures Split(a + [sep] + b, sep) == Split(a, sep) + Split(b, sep)
  {
    var pa := Split(a, sep);
    var pb := Split(b, sep);
    assert Join(pa + pb, sep) == a + [sep] + b by {
      JoinSplit(a, sep);
      JoinSplit(b, sep);
      JoinAppend(pa, pb, sep);
    }
    SeparatorFreeConcat(pa, pb, sep);
    SplitJoin(pa + pb, sep);
  }

  lemma SeparatorFreeConcat(pa: seq<string>, pb: seq<string>, sep: char)
    requires forall i :: 0 <= i < |pa| ==> sep !in pa[i]
    requires forall i :: 0 <= i < |pb| ==> sep !in pb[i]
    ensures forall i :: 0 <= i < |pa + pb| ==> sep !in (pa + pb)[i]
  {
    forall i | 0 <= i < |pa + pb| ensures sep !in (pa + pb)[i] {
      if i < |pa| { assert (pa + pb)[i] == pa[i]; } else { assert (pa + pb)[i] == pb[i - |pa|]; }
    }
  }
}
