/** Joining a list of strings with a separator, as ECMAScript's `Array.prototype.join`
    does for an array of strings, and splitting a string at a separator character,
    the reference inverse that relates a joined string back to its parts. */
module Strings {

  /** `parts.join(sep)`: an empty list gives "", otherwise the parts in order with
      `sep` between neighbours and nowhere else. */
  function Join(parts: seq<string>, sep: string): (joined: string)
    ensures |parts| == 0 ==> joined == ""
    ensures |parts| > 0 ==> |joined| == Offset(parts, sep, |parts| - 1) + |parts[|parts| - 1]|
  {
    if |parts| == 0 then ""
    else if |parts| == 1 then parts[0]
    else parts[0] + sep + Join(parts[1..], sep)
  }

  /** Position in `Join(parts, sep)` at which `parts[i]` starts. */
  function Offset(parts: seq<string>, sep: string, i: nat): (start: nat)
    requires i <= |parts|
  {
    if i == 0 then 0 else |parts[0]| + |sep| + Offset(parts[1..], sep, i - 1)
  }

  /** Consecutive parts start `|parts[i]| + |sep|` apart. */
  lemma {:induction false} OffsetStep(parts: seq<string>, sep: string, i: nat)
    requires i < |parts|
    ensures Offset(parts, sep, i + 1) == Offset(parts, sep, i) + |parts[i]| + |sep|
  {
    if i > 0 {
      OffsetStep(parts[1..], sep, i - 1);
      assert parts[1..][i - 1] == parts[i];
    }
  }

  /** The words of `s` between occurrences of `sep`: always at least one word, and a
      string without `sep` is a single word. */
  function Split(s: string, sep: char): (words: seq<string>)
    ensures |words| > 0
    ensures forall w | w in words :: sep !in w
    ensures |words| == 1 <==> sep !in s
  {
    if |s| == 0 then [""]
    else
      var rest := Split(s[1..], sep);
      if s[0] == sep then [""] + rest
      else
        assert sep !in s <==> sep !in s[1..] by {
          assert s == [s[0]] + s[1..];
        }
        [[s[0]] + rest[0]] + rest[1..]
  }

  /** Each part occupies exactly its own stretch of the joined string, in list order,
      and between consecutive parts stands exactly one copy of `sep`: no quoting,
      escaping or padding is added. */
  lemma {:induction false} JoinAt(parts: seq<string>, sep: string, i: nat)
    requires i < |parts|
    ensures Offset(parts, sep, i) + |parts[i]| <= |Join(parts, sep)|
    ensures Join(parts, sep)[Offset(parts, sep, i)..Offset(parts, sep, i) + |parts[i]|] == parts[i]
    ensures i + 1 < |parts| ==> Offset(parts, sep, i) + |parts[i]| + |sep| <= |Join(parts, sep)|
    ensures i + 1 < |parts| ==>
      Join(parts, sep)[Offset(parts, sep, i) + |parts[i]|..Offset(parts, sep, i) + |parts[i]| + |sep|] == sep
    ensures i + 1 == |parts| ==> |Join(parts, sep)| == Offset(parts, sep, i) + |parts[i]|
  {
    var j := Join(parts, sep);
    if |parts| == 1 {
    } else {
      var tail := Join(parts[1..], sep);
      var shift := |parts[0]| + |sep|;
      assert j == parts[0] + sep + tail;
      if i == 0 {
        assert j[..|parts[0]|] == parts[0];
        assert j[|parts[0]|..shift] == sep;
      } else {
        JoinAt(parts[1..], sep, i - 1);
        var lo := Offset(parts[1..], sep, i - 1);
        assert parts[1..][i - 1] == parts[i];
        assert Offset(parts, sep, i) == shift + lo;
        assert j[shift..] == tail;
        assert j[shift + lo..shift + lo + |parts[i]|] == tail[lo..lo + |parts[i]|];
        if i + 1 < |parts| {
          assert j[shift + lo + |parts[i]|..shift + lo + |parts[i]| + |sep|]
              == tail[lo + |parts[i]|..lo + |parts[i]| + |sep|];
        }
      }
    }
  }

  /** A string free of `sep` splits to itself alone. */
  lemma {:induction false} SplitWord(w: string, sep: char)
    requires sep !in w
    ensures Split(w, sep) == [w]
    decreases |w|
  {
    if |w| > 0 {
      SplitWord(w[1..], sep);
      assert [w[0]] + w[1..] == w;
    }
  }

  /** Splitting `a + [sep] + b` with `a` free of `sep` peels off `a` as the first word. */
  lemma {:induction false} SplitCons(a: string, b: string, sep: char)
    requires sep !in a
    ensures Split(a + [sep] + b, sep) == [a] + Split(b, sep)
    decreases |a|
  {
    var s := a + [sep] + b;
    if |a| == 0 {
      assert s[0] == sep && s[1..] == b;
    } else {
      assert s[0] == a[0] && s[1..] == a[1..] + [sep] + b;
      SplitCons(a[1..], b, sep);
      assert [a[0]] + a[1..] == a;
    }
  }

  /** Splitting undoes joining, when no part contains the separator and there is at
      least one part (the empty list and the list [""] join to the same "").  */
  lemma {:induction false} SplitJoin(parts: seq<string>, sep: char)
    requires |parts| > 0
    requires forall i | 0 <= i < |parts| :: sep !in parts[i]
    ensures Split(Join(parts, [sep]), sep) == parts
  {
    if |parts| == 1 {
      SplitWord(parts[0], sep);
    } else {
      SplitCons(parts[0], Join(parts[1..], [sep]), sep);
      SplitJoin(parts[1..], sep);
      assert parts == [parts[0]] + parts[1..];
    }
  }

  /** Prepending `x` to the first part prepends `x` to the joined string. */
  lemma JoinExtendHead(x: string, parts: seq<string>, sep: string)
    requires |parts| > 0
    ensures Join([x + parts[0]] + parts[1..], sep) == x + Join(parts, sep)
  {
    var words := [x + parts[0]] + parts[1..];
    if |parts| > 1 {
      assert words[1..] == parts[1..];
    }
  }

  /** Joining undoes splitting, for every string. */
  lemma {:induction false} JoinSplit(s: string, sep: char)
    ensures Join(Split(s, sep), [sep]) == s
    decreases |s|
  {
    if |s| > 0 {
      var rest := Split(s[1..], sep);
      JoinSplit(s[1..], sep);
      assert s == [s[0]] + s[1..];
      if s[0] == sep {
        assert ([""] + rest)[1..] == rest;
        assert Join([""] + rest, [sep]) == [sep] + Join(rest, [sep]);
      } else {
        JoinExtendHead([s[0]], rest, [sep]);
      }
    }
  }
}
