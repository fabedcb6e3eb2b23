/** The parts of JavaScript's runtime semantics that the server's string
    construction depends on: a value that is either a string or `undefined`
    (an absent request header, an array index past the end), its rendering
    inside a template literal, array indexing, and
    `String.prototype.split` with a one-character separator. */
module JsText {

  /** A JavaScript value that is either a string or `undefined`. */
  datatype JsStr = Undefined | Str(s: string)

  /** `${v}` inside a template literal: `undefined` renders as that word. */
  function Render(v: JsStr): string
  {
    match v
    case Undefined => "undefined"
    case Str(s) => s
  }

  /** `parts[i]`: indexing past the end of an array yields `undefined`. */
  function At(parts: seq<string>, i: nat): (v: JsStr)
    ensures v.Str? <==> i < |parts|
    ensures v.Str? ==> v.s == parts[i]
  {
    if i < |parts| then Str(parts[i]) else Undefined
  }

  /** The segments with one separator between neighbours: the inverse of
      `Split`, used to read a command line as the fields it carries. */
  function Join(parts: seq<string>, sep: char): string
  {
    if |parts| == 0 then ""
    else if |parts| == 1 then parts[0]
    else parts[0] + [sep] + Join(parts[1..], sep)
  }

  /** `s.split(sep)` for a one-character separator: scanning left to
      right, each separator closes the current segment and opens a new one.
      The empty string splits into one empty segment. */
  function Split(s: string, sep: char): (parts: seq<string>)
    ensures |parts| >= 1
    decreases |s|
  {
    if |s| == 0 then [""]
    else
      var rest := Split(s[1..], sep);
      if s[0] == sep then [""] + rest
      else [[s[0]] + rest[0]] + rest[1..]
  }

  /** No segment holds the separator, and joining the segments with it
      gives back the string. */
  lemma {:induction false} SplitSegments(s: string, sep: char)
    ensures forall i :: 0 <= i < |Split(s, sep)| ==> sep !in Split(s, sep)[i]
    ensures Join(Split(s, sep), sep) == s
    decreases |s|
  {
    if |s| > 0 {
      var rest := Split(s[1..], sep);
      SplitSegments(s[1..], sep);
      if s[0] == sep {
        assert ([""] + rest)[1..] == rest;
      } else {
        var head := [s[0]] + rest[0];
        assert s == [s[0]] + s[1..];
        assert ([head] + rest[1..])[1..] == rest[1..];
        assert forall i :: 1 <= i < |rest| ==> ([head] + rest[1..])[i] == rest[i];
      }
    }
  }

  /** A string without the separator is a single segment. */
  lemma {:induction false} SplitWhole(s: string, sep: char)
    requires sep !in s
    ensures Split(s, sep) == [s]
    decreases |s|
  {
    if |s| > 0 {
      assert s[0] != sep by { assert s[0] in s; }
      assert sep !in s[1..] by { assert forall c :: c in s[1..] ==> c in s; }
      SplitWhole(s[1..], sep);
      assert [s[0]] + s[1..] == s;
    }
  }

  /** A separator-free word followed by the separator is one segment ahead
      of the split of what follows. */
  lemma {:induction false} SplitWord(w: string, rest: string, sep: char)
    requires sep !in w
    ensures Split(w + [sep] + rest, sep) == [w] + Split(rest, sep)
    decreases |w|
  {
    var s := w + [sep] + rest;
    if |w| == 0 {
      assert s == [sep] + rest;
      assert s[1..] == rest;
    } else {
      assert w[0] != sep by { assert w[0] in w; }
      assert sep !in w[1..] by { assert forall c :: c in w[1..] ==> c in w; }
      assert s[0] == w[0];
      assert s[1..] == w[1..] + [sep] + rest;
      SplitWord(w[1..], rest, sep);
      assert [w[0]] + w[1..] == w;
      var r := [w[1..]] + Split(rest, sep);
      assert r[0] == w[1..] && r[1..] == Split(rest, sep);
    }
  }

  /** Every character of a segment occurs in the joined string. */
  lemma {:induction false} JoinHolds(parts: seq<string>, sep: char, k: nat)
    requires k < |parts|
    ensures forall c :: c in parts[k] ==> c in Join(parts, sep)
    decreases k
  {
    if |parts| > 1 {
      var j := Join(parts[1..], sep);
      assert Join(parts, sep) == parts[0] + [sep] + j;
      if k == 0 {
        assert forall c :: c in parts[0] ==> c in parts[0] + [sep] + j;
      } else {
        JoinHolds(parts[1..], sep, k - 1);
        assert parts[1..][k - 1] == parts[k];
        assert forall c :: c in j ==> c in parts[0] + [sep] + j;
      }
    }
  }

  /** Split is determined by its two properties: the only non-empty list of
      separator-free segments that joins to `s` is `Split(s, sep)`. */
  lemma {:induction false} SplitUnique(parts: seq<string>, s: string, sep: char)
    requires |parts| >= 1
    requires forall i :: 0 <= i < |parts| ==> sep !in parts[i]
    requires Join(parts, sep) == s
    ensures parts == Split(s, sep)
    decreases |parts|
  {
    if |parts| == 1 {
      SplitWhole(s, sep);
    } else {
      var tail := parts[1..];
      assert s == parts[0] + [sep] + Join(tail, sep);
      assert forall i :: 0 <= i < |tail| ==> tail[i] == parts[i + 1];
      SplitUnique(tail, Join(tail, sep), sep);
      SplitWord(parts[0], Join(tail, sep), sep);
      assert [parts[0]] + tail == parts;
    }
  }

  /** Splitting a join of separator-free segments gives the segments back. */
  lemma SplitJoin(parts: seq<string>, sep: char)
    requires |parts| >= 1
    requires forall i :: 0 <= i < |parts| ==> sep !in parts[i]
    ensures Split(Join(parts, sep), sep) == parts
  {
    SplitUnique(parts, Join(parts, sep), sep);
  }

  /** Segment 0 is exactly the prefix of `s` before the first separator: it
      holds no separator, and it is followed by the separator or ends `s`.
      A second segment exists exactly when `s` holds the separator, and the
      segments after the first are the split of what follows that
      separator. */
  lemma FirstSegment(s: string, sep: char)
    ensures var parts := Split(s, sep);
      && parts[0] <= s
      && sep !in parts[0]
      && (|parts[0]| < |s| ==> s[|parts[0]|] == sep)
      && (|parts| >= 2 <==> sep in s)
      && (sep in s ==> parts[1..] == Split(s[|parts[0]| + 1..], sep))
  {
    var parts := Split(s, sep);
    SplitSegments(s, sep);
    if |parts| == 1 {
      assert s == parts[0];
    } else {
      assert s == parts[0] + [sep] + Join(parts[1..], sep);
      assert s[|parts[0]|] == sep;
      assert s[|parts[0]| + 1..] == Join(parts[1..], sep);
      SplitSegments(s[|parts[0]| + 1..], sep);
      assert forall i :: 0 <= i < |parts[1..]| ==> parts[1..][i] == parts[i + 1];
      SplitJoin(parts[1..], sep);
    }
  }

  /** Splitting at one separator splits each side independently. */
  lemma {:induction false} SplitAppend(a: string, b: string, sep: char)
    ensures Split(a + [sep] + b, sep) == Split(a, sep) + Split(b, sep)
    decreases |a|
  {
    if sep !in a {
      SplitWhole(a, sep);
      SplitWord(a, b, sep);
    } else {
      FirstSegment(a, sep);
      var k := |Split(a, sep)[0]|;
      var w, t := a[..k], a[k + 1..];
      assert a == w + [sep] + t;
      assert a + [sep] + b == w + [sep] + (t + [sep] + b);
      SplitWord(w, t, sep);
      SplitWord(w, t + [sep] + b, sep);
      SplitAppend(t, b, sep);
      AppendAssoc([w], Split(t, sep), Split(b, sep));
    }
  }

  /** Concatenation of lists is associative. */
  lemma AppendAssoc<T>(x: seq<T>, y: seq<T>, z: seq<T>)
    ensures x + (y + z) == (x + y) + z
  {
  }
}
