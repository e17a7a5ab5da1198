/**
 * Splitting a string on a one-character separator, with the semantics of PHP's
 * `explode` without a limit: the result always has at least one field, and
 * empty fields are kept (`"a::b"` has three fields, the middle one empty).
 * `Join` is its inverse.
 */
module Fields {

  import opened Wrappers

  /** The fields of `s` separated by `sep`, from left to right. */
  function Split(s: string, sep: char): (fields: seq<string>)
    ensures |fields| >= 1
    ensures forall i :: 0 <= i < |fields| ==> sep !in fields[i]
    ensures |fields| >= 2 <==> sep in s
    decreases |s|
  {
    if |s| == 0 then
      [""]
    else if s[0] == sep then
      [""] + Split(s[1..], sep)
    else
      var rest := Split(s[1..], sep);
      assert sep in s <==> sep in s[1..] by {
        assert s == [s[0]] + s[1..];
      }
      [[s[0]] + rest[0]] + rest[1..]
  }

  /** The fields glued back together with `sep` between neighbours. */
  function Join(fields: seq<string>, sep: char): string
    decreases |fields|
  {
    if |fields| == 0 then ""
    else if |fields| == 1 then fields[0]
    else fields[0] + [sep] + Join(fields[1..], sep)
  }

  /** Joining the fields of `s` gives `s` back. */
  lemma {:induction false} JoinSplit(s: string, sep: char)
    ensures Join(Split(s, sep), sep) == s
    decreases |s|
  {
    if |s| == 0 {
    } else if s[0] == sep {
      var rest := Split(s[1..], sep);
      JoinSplit(s[1..], sep);
      assert ([""] + rest)[1..] == rest;
      assert s == [sep] + s[1..];
    } else {
      var rest := Split(s[1..], sep);
      JoinSplit(s[1..], sep);
      var fields := [[s[0]] + rest[0]] + rest[1..];
      assert s == [s[0]] + s[1..];
      if |rest| == 1 {
        assert Join(fields, sep) == [s[0]] + rest[0];
      } else {
        assert fields[1..] == rest[1..];
        assert Join(fields, sep) == ([s[0]] + rest[0]) + [sep] + Join(rest[1..], sep);
        assert Join(rest, sep) == rest[0] + [sep] + Join(rest[1..], sep);
      }
    }
  }

  /** A string free of the separator is a single field. */
  lemma {:induction false} SplitWithoutSeparator(a: string, sep: char)
    requires sep !in a
    ensures Split(a, sep) == [a]
  {
    // Split yields one field exactly when the separator is absent, and
    // gluing a single field is that field itself.
    JoinSplit(a, sep);
  }

  /** A leading separator-free piece followed by the separator becomes the first field. */
  lemma {:induction false} SplitAfterField(a: string, sep: char, b: string)
    requires sep !in a
    ensures Split(a + [sep] + b, sep) == [a] + Split(b, sep)
    decreases |a|
  {
    var s := a + [sep] + b;
    if |a| == 0 {
      assert s == [sep] + b;
      assert s[1..] == b;
    } else {
      assert s[0] == a[0];
      assert s[1..] == a[1..] + [sep] + b;
      SplitAfterField(a[1..], sep, b);
      var rest := Split(s[1..], sep);
      assert rest == [a[1..]] + Split(b, sep);
      assert [a[0]] + a[1..] == a;
    }
  }

  /**
   * `f` is the second field of `s`: it sits right after the first separator
   * and is followed either by the end of `s` or by the next separator.
   */
  ghost predicate IsSecondField(s: string, sep: char, f: string)
  {
    exists host, rest ::
      && s == host + [sep] + f + rest
      && sep !in host
      && (rest == [] || rest[0] == sep)
  }

  /** When there are at least two fields, the second one is where `IsSecondField` says. */
  lemma {:induction false} SecondFieldInPlace(s: string, sep: char)
    requires |Split(s, sep)| >= 2
    ensures IsSecondField(s, sep, Split(s, sep)[1])
  {
    var fields := Split(s, sep);
    var rest := if |fields| == 2 then "" else [sep] + Join(fields[2..], sep);
    SecondFieldSplice(s, sep);
    assert s == fields[0] + [sep] + fields[1] + rest && sep !in fields[0] && (rest == [] || rest[0] == sep);
  }

  /** `s` is its first field, a separator, its second field, and what follows. */
  lemma {:induction false} SecondFieldSplice(s: string, sep: char)
    requires |Split(s, sep)| >= 2
    ensures var fields := Split(s, sep);
            var rest := if |fields| == 2 then "" else [sep] + Join(fields[2..], sep);
            s == fields[0] + [sep] + fields[1] + rest
  {
    var fields := Split(s, sep);
    JoinSplit(s, sep);
    assert Join(fields, sep) == fields[0] + [sep] + Join(fields[1..], sep);
    assert fields[1..][0] == fields[1];
    if |fields| > 2 {
      assert fields[1..][1..] == fields[2..];
    }
  }

  /** Splitting undoes joining, for fields free of the separator. */
  lemma {:induction false} SplitJoin(fields: seq<string>, sep: char)
    requires |fields| >= 1
    requires forall i :: 0 <= i < |fields| ==> sep !in fields[i]
    ensures Split(Join(fields, sep), sep) == fields
    decreases |fields|
  {
    if |fields| == 1 {
      SplitWithoutSeparator(fields[0], sep);
    } else {
      SplitJoin(fields[1..], sep);
      SplitAfterField(fields[0], sep, Join(fields[1..], sep));
      assert [fields[0]] + fields[1..] == fields;
    }
  }
}
