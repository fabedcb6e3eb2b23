/** Field splitting, the step in which `/bin/sh` cuts an unquoted command
    line into the argument vector of the program it runs: at every run of
    blanks (spaces and tabs), with empty fields dropped. `exec` hands each
    command line of the server to the shell. The shell's other steps
    (quoting, expansions, operators) are not modelled here. */
module Shell {
  import opened JsText

  /** The characters that separate fields on an unquoted command line. */
  predicate IsBlank(c: char)
  {
    c == ' ' || c == '\t'
  }

  predicate BlankFree(w: string)
  {
    forall i :: 0 <= i < |w| ==> !IsBlank(w[i])
  }

  /** A string that field splitting keeps as exactly one argument. */
  predicate Word(w: string)
  {
    w != "" && BlankFree(w)
  }

  /** The line with every blank turned into a space. */
  function Spaced(s: string): string
  {
    seq(|s|, i requires 0 <= i < |s| => if IsBlank(s[i]) then ' ' else s[i])
  }

  /** The list without its empty strings, in the same order. */
  function NonEmpty(parts: seq<string>): (r: seq<string>)
    ensures forall w :: w in r ==> w in parts && w != ""
    ensures |r| <= |parts|
  {
    if |parts| == 0 then []
    else
      var rest := NonEmpty(parts[1..]);
      assert forall w :: w in rest ==> w in parts by {
        assert forall w :: w in parts[1..] ==> w in parts;
      }
      (if parts[0] == "" then [] else [parts[0]]) + rest
  }

  /** The fields of an unquoted command line. */
  function Fields(s: string): seq<string>
  {
    NonEmpty(Split(Spaced(s), ' '))
  }

  /** Every field is one argument's worth: non-empty and blank-free. */
  lemma FieldsAreWords(s: string)
    ensures forall w :: w in Fields(s) ==> Word(w)
  {
    var t := Spaced(s);
    var parts := Split(t, ' ');
    SplitSegments(t, ' ');
    forall k | 0 <= k < |parts|
      ensures BlankFree(parts[k])
    {
      JoinHolds(parts, ' ', k);
      forall j | 0 <= j < |parts[k]|
        ensures !IsBlank(parts[k][j])
      {
        assert parts[k][j] in parts[k];
        var m :| 0 <= m < |t| && t[m] == parts[k][j];
        assert parts[k][j] != ' ';
      }
    }
  }

  /** One argument's worth is its own single field. */
  lemma FieldsOfWord(w: string)
    requires Word(w)
    ensures Fields(w) == [w]
  {
    assert Spaced(w) == w;
    assert ' ' !in w;
    SplitWhole(w, ' ');
    assert [w][1..] == [];
  }

  /** The empty line has no fields. */
  lemma FieldsOfEmpty()
    ensures Fields("") == []
  {
    assert Spaced("") == "";
    assert [""][1..] == [];
  }

  lemma {:induction false} NonEmptyAppend(p: seq<string>, q: seq<string>)
    ensures NonEmpty(p + q) == NonEmpty(p) + NonEmpty(q)
    decreases |p|
  {
    if |p| == 0 {
      assert p + q == q;
    } else {
      assert (p + q)[0] == p[0];
      assert (p + q)[1..] == p[1..] + q;
      NonEmptyAppend(p[1..], q);
      AppendAssoc(if p[0] == "" then [] else [p[0]], NonEmpty(p[1..]), NonEmpty(q));
    }
  }

  /** A blank between two pieces of a line separates their fields. */
  lemma FieldsBlank(a: string, b: string)
    ensures Fields(a + " " + b) == Fields(a) + Fields(b)
  {
    var s := a + " " + b;
    assert Spaced(s) == Spaced(a) + [' '] + Spaced(b) by {
      assert forall i :: 0 <= i < |a| ==> s[i] == a[i];
      assert forall i :: |a| < i < |s| ==> s[i] == b[i - |a| - 1];
    }
    SplitAppend(Spaced(a), Spaced(b), ' ');
    NonEmptyAppend(Split(Spaced(a), ' '), Split(Spaced(b), ' '));
  }

  /** The fields of arguments joined by single spaces are exactly those
      arguments if and only if each is non-empty and blank-free. */
  lemma FieldsJoin(parts: seq<string>)
    ensures Fields(Join(parts, ' ')) == parts <==> forall i :: 0 <= i < |parts| ==> Word(parts[i])
  {
    if forall i :: 0 <= i < |parts| ==> Word(parts[i]) {
      FieldsJoinWords(parts);
    } else {
      FieldsAreWords(Join(parts, ' '));
      var i :| 0 <= i < |parts| && !Word(parts[i]);
      assert parts[i] in parts;
    }
  }

  lemma {:induction false} FieldsJoinWords(parts: seq<string>)
    requires forall i :: 0 <= i < |parts| ==> Word(parts[i])
    ensures Fields(Join(parts, ' ')) == parts
    decreases |parts|
  {
    if |parts| == 0 {
      FieldsOfEmpty();
    } else if |parts| == 1 {
      FieldsOfWord(parts[0]);
    } else {
      var tail := parts[1..];
      assert forall i :: 0 <= i < |tail| ==> tail[i] == parts[i + 1];
      FieldsJoinWords(tail);
      FieldsBlank(parts[0], Join(tail, ' '));
      FieldsOfWord(parts[0]);
      assert [parts[0]] + tail == parts;
    }
  }

  /** A concatenation is blank-free exactly when both pieces are. */
  lemma BlankFreeAppend(a: string, b: string)
    ensures BlankFree(a + b) <==> BlankFree(a) && BlankFree(b)
  {
    assert forall i :: 0 <= i < |a| ==> (a + b)[i] == a[i];
    assert forall i :: 0 <= i < |b| ==> (a + b)[|a| + i] == b[i];
    assert forall i :: |a| <= i < |a + b| ==> (a + b)[i] == b[i - |a|];
  }
}
