/** `lines.join(sep)` and its inverse `text.split(sep)`, for a one-character
    separator. */
module Lines {

  /** `lines.join(sep)`: the lines with `sep` between neighbours. */
  function Join(lines: seq<string>, sep: char): (r: string)
    ensures |lines| >= 1 ==> lines[0] <= r
    ensures |lines| >= 2 ==> |r| > |lines[0]| && r[|lines[0]|] == sep
  {
    if |lines| == 0 then []
    else if |lines| == 1 then lines[0]
    else lines[0] + [sep] + Join(lines[1..], sep)
  }

  /** Joining a line in front of at least one more puts one separator
      between them. */
  lemma JoinCons(h: string, f: seq<string>, sep: char)
    requires |f| >= 1
    ensures Join([h] + f, sep) == h + [sep] + Join(f, sep)
  {
    assert ([h] + f)[1..] == f;
  }

  /** A character in front of the first of at least one line joins that
      line. */
  lemma JoinExtendFirst(c: char, f: seq<string>, sep: char)
    requires |f| >= 1
    ensures Join([[c] + f[0]] + f[1..], sep) == [c] + Join(f, sep)
  {
    var g := [[c] + f[0]] + f[1..];
    assert g[1..] == f[1..];
    if |f| > 1 {
      assert [c] + f[0] + [sep] + Join(f[1..], sep) == [c] + (f[0] + [sep] + Join(f[1..], sep));
    }
  }

  /** `s.split(sep)`: the pieces between separators; never empty. */
  function Split(s: string, sep: char): (r: seq<string>)
    ensures |r| >= 1
    ensures forall k :: 0 <= k < |r| ==> sep !in r[k]
  {
    if s == [] then [[]]
    else
      var rest := Split(s[1..], sep);
      if s[0] == sep then [[]] + rest else [[s[0]] + rest[0]] + rest[1..]
  }

  /** Text without a separator in front of `t` joins the first piece. */
  lemma {:induction false} SplitPrepend(a: string, t: string, sep: char)
    requires sep !in a
    ensures Split(a + t, sep) == [a + Split(t, sep)[0]] + Split(t, sep)[1..]
  {
    if a != [] {
      assert (a + t)[0] == a[0] && (a + t)[1..] == a[1..] + t;
      SplitPrepend(a[1..], t, sep);
      assert [a[0]] + (a[1..] + Split(t, sep)[0]) == a + Split(t, sep)[0];
    } else {
      var r := Split(t, sep);
      assert a + t == t && a + r[0] == r[0];
      assert [r[0]] + r[1..] == r;
    }
  }

  /** Splitting joined lines gives them back, provided no line holds the
      separator. */
  lemma {:induction false} SplitJoin(lines: seq<string>, sep: char)
    requires |lines| >= 1
    requires forall k :: 0 <= k < |lines| ==> sep !in lines[k]
    ensures Split(Join(lines, sep), sep) == lines
  {
    if |lines| == 1 {
      SplitPrepend(lines[0], [], sep);
      assert lines[0] + [] == lines[0];
    } else {
      var rest := Join(lines[1..], sep);
      SplitJoin(lines[1..], sep);
      assert ([sep] + rest)[0] == sep && ([sep] + rest)[1..] == rest;
      assert Split([sep] + rest, sep) == [[]] + lines[1..];
      assert lines[0] + [] == lines[0];
      assert lines[0] + [sep] + rest == lines[0] + ([sep] + rest);
      SplitPrepend(lines[0], [sep] + rest, sep);
      assert lines == [lines[0]] + lines[1..];
    }
  }

  /** Joining the pieces of a split gives the text back. */
  lemma {:induction false} JoinSplit(s: string, sep: char)
    ensures Join(Split(s, sep), sep) == s
  {
    if s != [] {
      var rest := Split(s[1..], sep);
      JoinSplit(s[1..], sep);
      if s[0] == sep {
        assert ([[]] + rest)[1..] == rest;
      } else if |rest| == 1 {
        assert Join(rest, sep) == rest[0];
      } else {
        var pieces := [[s[0]] + rest[0]] + rest[1..];
        assert pieces[1..] == rest[1..];
        assert Join(rest, sep) == rest[0] + [sep] + Join(rest[1..], sep);
      }
    }
  }
}
