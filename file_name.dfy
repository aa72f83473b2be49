/**
 * `constructFileName(html)`: pick the page title from the first `<h1>` or
 * `<title>` element and turn it into a safe file name.
 */
module FileName {
  import opened Wrappers
  import opened Text
  import Lines

  const H1Open := "<h1>"
  const H1Close := "</h1>"
  const TitleOpen := "<title>"
  const TitleClose := "</title>"
  /** The title used when the page has neither element. */
  const DefaultTitle := "article"
  /** The length `substring(0, 100)` keeps. */
  const MaxLength := 100

  // ---------------------------------------------------------------------
  // The patterns /<h1>(.*?)<\/h1>/ and /<title>(.*?)<\/title>/
  // ---------------------------------------------------------------------

  /** `close` occurs at `j >= k` and nothing in `s[k..j]` is a line
      terminator, so `.*?` can stretch from `k` to `j`. */
  predicate CloseAfter(s: string, close: string, k: int, j: int) {
    && 0 <= k <= j
    && OccursAt(s, close, j)
    && forall m :: k <= m < j ==> !IsLineTerminator(s[m])
  }

  /** `open(.*?)close` matches `s` from index `i`, with the closing text at
      index `j`; the captured group is `s[i + |open|..j]`. */
  predicate IsMatch(s: string, open: string, close: string, i: int, j: int) {
    OccursAt(s, open, i) && CloseAfter(s, close, i + |open|, j)
  }

  /** A match span: the match starts at `start`, its group ends at `close`. */
  datatype Span = Span(start: nat, close: nat)

  /** Scans for the nearest closing text from index `k`, giving up at a line
      terminator: the non-greedy `.*?`. */
  function FindClose(s: string, close: string, k: nat): (r: Option<nat>)
    decreases |s| - k
    ensures r.Some? ==> CloseAfter(s, close, k, r.value)
    ensures r.Some? ==> forall j :: CloseAfter(s, close, k, j) ==> r.value <= j
    ensures r.None? ==> forall j :: !CloseAfter(s, close, k, j)
  {
    if OccursAt(s, close, k) then Some(k)
    else if k >= |s| || IsLineTerminator(s[k]) then None
    else
      var r := FindClose(s, close, k + 1);
      assert forall j :: CloseAfter(s, close, k, j) ==> j == k || CloseAfter(s, close, k + 1, j);
      r
  }

  /** `exec` from index `i`: the leftmost start, and for it the shortest
      group. */
  function ExecFrom(s: string, open: string, close: string, i: nat): (r: Option<Span>)
    decreases |s| - i
    ensures r.Some? ==> i <= r.value.start && IsMatch(s, open, close, r.value.start, r.value.close)
    ensures r.Some? ==> forall i', j' :: i <= i' && IsMatch(s, open, close, i', j') ==>
      r.value.start < i' || (r.value.start == i' && r.value.close <= j')
    ensures r.None? ==> forall i', j' :: i <= i' ==> !IsMatch(s, open, close, i', j')
  {
    var c := if OccursAt(s, open, i) then FindClose(s, close, i + |open|) else None;
    if c.Some? then Some(Span(i, c.value))
    else
      assert forall j :: !IsMatch(s, open, close, i, j);
      if i >= |s| then
        NoMatchBeyond(s, open, close, i);
        None
      else ExecFrom(s, open, close, i + 1)
  }

  /** A match needs its opening text inside `s`, so none starts past its
      end. */
  lemma NoMatchBeyond(s: string, open: string, close: string, i: int)
    requires i >= |s|
    requires forall j :: !IsMatch(s, open, close, i, j)
    ensures forall i', j' :: i <= i' ==> !IsMatch(s, open, close, i', j')
  {
  }

  /** `pattern.exec(s)` for the pattern `open(.*?)close`: the least match,
      ordered by start and then by the end of the group. */
  function Exec(s: string, open: string, close: string): (r: Option<Span>)
    ensures r.Some? ==> IsMatch(s, open, close, r.value.start, r.value.close)
    ensures r.Some? ==> forall i, j :: IsMatch(s, open, close, i, j) ==>
      r.value.start < i || (r.value.start == i && r.value.close <= j)
    ensures r.None? ==> forall i, j :: !IsMatch(s, open, close, i, j)
  {
    ExecFrom(s, open, close, 0)
  }

  /** `pattern.exec(s)?.[1]`: the first capture group, if there is a match. */
  function Group(s: string, open: string, close: string): (g: Option<string>)
    ensures g.None? <==> forall i, j :: !IsMatch(s, open, close, i, j)
    ensures g.Some? ==> exists i, j :: IsMatch(s, open, close, i, j) && g.value == s[i + |open|..j]
    ensures g.Some? ==> Includes(s, g.value)
    ensures g.Some? ==> forall k :: 0 <= k < |g.value| ==> !IsLineTerminator(g.value[k])
  {
    match Exec(s, open, close)
    case None => None
    case Some(m) =>
      SingleLineSlice(s, m.start + |open|, m.close);
      assert OccursAt(s, s[m.start + |open|..m.close], m.start + |open|);
      Some(s[m.start + |open|..m.close])
  }

  /** A slice without line terminators holds none. */
  lemma SingleLineSlice(s: string, a: int, c: int)
    requires 0 <= a <= c <= |s|
    requires forall m :: a <= m < c ==> !IsLineTerminator(s[m])
    ensures forall k :: 0 <= k < c - a ==> !IsLineTerminator(s[a..c][k])
  {
    assert forall k :: 0 <= k < c - a ==> s[a..c][k] == s[a + k];
  }

  /** `h1 ?? meta_title ?? "article"`: a single-line piece of the page, or
      the default. */
  function Title(html: string): (t: string)
    ensures t == DefaultTitle || Includes(html, t)
    ensures forall k :: 0 <= k < |t| ==> !IsLineTerminator(t[k])
  {
    match Group(html, H1Open, H1Close)
    case Some(h1) => h1
    case None =>
      match Group(html, TitleOpen, TitleClose)
      case Some(t) => t
      case None => DefaultTitle
  }

  // ---------------------------------------------------------------------
  // The sanitise chain
  // ---------------------------------------------------------------------

  /** A character of the class `[^a-zA-Z0-9\s]`. */
  predicate IsSpecial(c: char) {
    !IsAlnum(c) && !IsWs(c)
  }

  /** The ASCII letters and digits of `s`, in order. */
  function Alnums(s: string): string {
    if s == [] then []
    else if IsAlnum(s[0]) then [s[0]] + Alnums(s[1..])
    else Alnums(s[1..])
  }

  /** The characters of `s` that are not whitespace, in order. */
  function NonWs(s: string): string {
    if s == [] then []
    else if IsWs(s[0]) then NonWs(s[1..])
    else [s[0]] + NonWs(s[1..])
  }

  /** The characters of `s` other than the space character, in order. */
  function NonSpaces(s: string): string {
    if s == [] then []
    else if s[0] == ' ' then NonSpaces(s[1..])
    else [s[0]] + NonSpaces(s[1..])
  }

  /** Which runs a `replace(/X+/g, " ")` collapses: `[^a-zA-Z0-9\s]`, `\s`,
      or `[^a-zA-Z0-9]`, the class the two replacements amount to together. */
  datatype Class = Specials | Whitespace | Separators

  predicate InClass(cls: Class, c: char) {
    match cls
    case Specials => IsSpecial(c)
    case Whitespace => IsWs(c)
    case Separators => !IsAlnum(c)
  }

  /** Drops the run of `cls` characters that `s` starts with. */
  function DropRun(cls: Class, s: string): (r: string)
    ensures |r| <= |s| && r == s[|s| - |r|..]
    ensures forall k :: 0 <= k < |s| - |r| ==> InClass(cls, s[k])
    ensures r == [] || !InClass(cls, r[0])
  {
    if s != [] && InClass(cls, s[0]) then DropRun(cls, s[1..]) else s
  }

  /** `s.replace(/X+/g, " ")` as the left-to-right scan the regular
      expression engine makes: the first character of each maximal run of
      `cls` characters becomes one space, the rest of the run is dropped,
      and every other character is kept. `inRun` says that the character
      before `s` was in the class. */
  function ReplaceRunsFrom(cls: Class, s: string, inRun: bool): string {
    if s == [] then []
    else if !InClass(cls, s[0]) then [s[0]] + ReplaceRunsFrom(cls, s[1..], false)
    else if inRun then ReplaceRunsFrom(cls, s[1..], true)
    else " " + ReplaceRunsFrom(cls, s[1..], true)
  }

  /** `s.replace(/X+/g, " ")`. */
  function ReplaceRuns(cls: Class, s: string): string {
    ReplaceRunsFrom(cls, s, false)
  }

  /** `s.split(/X+/)`: the pieces between the maximal runs of `cls`
      characters; a run at either end leaves an empty first or last piece. */
  function Fields(cls: Class, s: string): (r: seq<string>)
    ensures |r| >= 1
  {
    if s == [] then [[]]
    else
      var rest := Fields(cls, s[1..]);
      if !InClass(cls, s[0]) then [[s[0]] + rest[0]] + rest[1..]
      else if |s| > 1 && InClass(cls, s[1]) then rest
      else [[]] + rest
  }

  /** The words of `s`: its maximal runs of ASCII letters and digits, in
      order. */
  function Words(s: string): (r: seq<string>)
    ensures s != [] && IsAlnum(s[0]) ==> |r| >= 1
  {
    if s == [] then []
    else
      var rest := Words(s[1..]);
      if !IsAlnum(s[0]) then rest
      else if |s| > 1 && IsAlnum(s[1]) then [[s[0]] + rest[0]] + rest[1..]
      else [[s[0]]] + rest
  }

  /** A non-empty run of ASCII letters and digits. */
  predicate IsWord(w: string) {
    w != [] && forall k :: 0 <= k < |w| ==> IsAlnum(w[k])
  }

  /** `replace(/[^a-zA-Z0-9\s]+/g, " ")`. */
  function ReplaceSpecials(s: string): (r: string)
    ensures r == Lines.Join(Fields(Specials, s), ' ')
    ensures forall k :: 0 <= k < |r| ==> !IsSpecial(r[k])
    ensures Alnums(r) == Alnums(s)
  {
    RunsAsFields(Specials, s);
    ReplaceSpecialsNoSpecial(s, false);
    ReplaceSpecialsAlnums(s, false);
    ReplaceRuns(Specials, s)
  }

  /** `replace(/\s+/g, " ")`. */
  function CollapseWs(s: string): (r: string)
    ensures r == Lines.Join(Fields(Whitespace, s), ' ')
    ensures forall k :: 0 <= k < |r| ==> IsWs(r[k]) ==> r[k] == ' '
    ensures forall k :: 0 <= k < |r| - 1 ==> !(IsWs(r[k]) && IsWs(r[k + 1]))
    ensures forall k :: 0 <= k < |r| ==> r[k] == ' ' || r[k] in s
    ensures NonWs(r) == NonWs(s)
  {
    RunsAsFields(Whitespace, s);
    CollapseWsShape(s, false);
    CollapseWsNonWs(s, false);
    ReplaceRuns(Whitespace, s)
  }

  /** `trimStart()`: the suffix of `s` after its leading whitespace. */
  function TrimStart(s: string): (r: string)
    ensures |r| <= |s| && r == s[|s| - |r|..]
    ensures forall k :: 0 <= k < |s| - |r| ==> IsWs(s[k])
    ensures r == [] || !IsWs(r[0])
  {
    DropRun(Whitespace, s)
  }

  /** `trimEnd()`: the prefix of `s` before its trailing whitespace. */
  function TrimEnd(s: string): (r: string)
    ensures r <= s
    ensures forall k :: |r| <= k < |s| ==> IsWs(s[k])
    ensures r == [] || !IsWs(r[|r| - 1])
  {
    if s != [] && IsWs(s[|s| - 1]) then TrimEnd(s[..|s| - 1]) else s
  }

  /** `trim()`: the slice of `s` from its first to its last character that
      is not whitespace. */
  function Trim(s: string): (r: string)
    ensures Includes(s, r)
    ensures r == [] || (!IsWs(r[0]) && !IsWs(r[|r| - 1]))
    ensures NonWs(r) == NonWs(s)
  {
    TrimSlice(s);
    TrimEnd(TrimStart(s))
  }

  /** `substring(0, n)`: the first `n` characters, or all of a shorter `s`. */
  function Truncate(s: string, n: nat): (r: string)
    ensures r <= s
    ensures |r| == if |s| <= n then |s| else n
  {
    if |s| <= n then s else s[..n]
  }

  /** The sanitised title before truncation. */
  function Normalise(title: string): string {
    Trim(CollapseWs(ReplaceSpecials(title)))
  }

  /** The sanitise chain applied to the chosen title. */
  function Sanitise(title: string): string {
    Truncate(Trim(CollapseWs(ReplaceSpecials(title))), MaxLength)
  }

  /** `constructFileName(html)`: the first 100 characters of the chosen
      title's words joined by single spaces. */
  function ConstructFileName(html: string): (r: string)
    ensures r == Truncate(Lines.Join(Words(Title(html)), ' '), MaxLength)
  {
    NormaliseIsWords(Title(html));
    Sanitise(Title(html))
  }

  // ---------------------------------------------------------------------
  // Lemmas about the filters
  // ---------------------------------------------------------------------

  lemma {:induction false} NonWsConcat(a: string, b: string)
    ensures NonWs(a + b) == NonWs(a) + NonWs(b)
  {
    if a == [] {
      assert a + b == b;
    } else {
      assert (a + b)[0] == a[0] && (a + b)[1..] == a[1..] + b;
      NonWsConcat(a[1..], b);
    }
  }

  lemma {:induction false} NonWsAllWs(s: string)
    requires forall k :: 0 <= k < |s| ==> IsWs(s[k])
    ensures NonWs(s) == []
  {
    if s != [] {
      NonWsAllWs(s[1..]);
    }
  }

  lemma {:induction false} AlnumsConcat(a: string, b: string)
    ensures Alnums(a + b) == Alnums(a) + Alnums(b)
  {
    if a == [] {
      assert a + b == b;
    } else {
      assert (a + b)[0] == a[0] && (a + b)[1..] == a[1..] + b;
      AlnumsConcat(a[1..], b);
    }
  }

  lemma {:induction false} AlnumsNone(s: string)
    requires forall k :: 0 <= k < |s| ==> !IsAlnum(s[k])
    ensures Alnums(s) == []
  {
    if s != [] {
      AlnumsNone(s[1..]);
    }
  }

  /** On a string without special characters, dropping whitespace keeps
      exactly the letters and digits. */
  lemma {:induction false} NonWsIsAlnums(s: string)
    requires forall k :: 0 <= k < |s| ==> !IsSpecial(s[k])
    ensures NonWs(s) == Alnums(s)
  {
    if s != [] {
      NonWsIsAlnums(s[1..]);
    }
  }

  /** On a string of letters, digits and spaces, dropping spaces keeps
      exactly the letters and digits. */
  lemma {:induction false} NonSpacesIsAlnums(s: string)
    requires forall k :: 0 <= k < |s| ==> IsAlnum(s[k]) || s[k] == ' '
    ensures NonSpaces(s) == Alnums(s)
  {
    if s != [] {
      NonSpacesIsAlnums(s[1..]);
    }
  }

  /** The letters and digits of a prefix are a prefix of the letters and
      digits of the whole. */
  lemma {:induction false} AlnumsPrefix(p: string, s: string)
    requires p <= s
    ensures Alnums(p) <= Alnums(s)
  {
    AlnumsConcat(p, s[|p|..]);
    assert s == p + s[|p|..];
  }

  /** `trimEnd(trimStart(s))` is a slice of `s` holding all of its
      non-whitespace characters. */
  lemma TrimSlice(s: string)
    ensures var r := TrimEnd(TrimStart(s));
      && Includes(s, r)
      && (r == [] || (!IsWs(r[0]) && !IsWs(r[|r| - 1])))
      && NonWs(r) == NonWs(s)
  {
    var t := TrimStart(s);
    var r := TrimEnd(t);
    var a := |s| - |t|;
    assert s[a..a + |r|] == r;
    assert OccursAt(s, r, a);
    if r != [] {
      assert r[0] == t[0];
    }
    TrimStartNonWs(s);
    TrimEndNonWs(t);
  }

  lemma TrimStartNonWs(s: string)
    ensures NonWs(TrimStart(s)) == NonWs(s)
  {
    var t := TrimStart(s);
    var a := |s| - |t|;
    NonWsAllWs(s[..a]);
    NonWsConcat(s[..a], t);
    assert s == s[..a] + t;
  }

  lemma TrimEndNonWs(t: string)
    ensures NonWs(TrimEnd(t)) == NonWs(t)
  {
    var r := TrimEnd(t);
    NonWsAllWs(t[|r|..]);
    NonWsConcat(r, t[|r|..]);
    assert t == r + t[|r|..];
  }

  // ---------------------------------------------------------------------
  // Lemmas about the run replacement
  // ---------------------------------------------------------------------

  /** No character of `s` is special. */
  predicate NoSpecial(s: string) {
    forall k :: 0 <= k < |s| ==> !IsSpecial(s[k])
  }

  lemma NoSpecialCons(c: char, x: string)
    requires !IsSpecial(c) && NoSpecial(x)
    ensures NoSpecial([c] + x)
  {
    assert forall k :: 1 <= k < |[c] + x| ==> ([c] + x)[k] == x[k - 1];
  }

  lemma {:induction false} ReplaceSpecialsNoSpecial(s: string, inRun: bool)
    ensures NoSpecial(ReplaceRunsFrom(Specials, s, inRun))
  {
    if s != [] {
      var next := IsSpecial(s[0]);
      ReplaceSpecialsNoSpecial(s[1..], next);
      var x := ReplaceRunsFrom(Specials, s[1..], next);
      if !next {
        NoSpecialCons(s[0], x);
      } else if !inRun {
        NoSpecialCons(' ', x);
      }
    }
  }

  lemma {:induction false} ReplaceSpecialsAlnums(s: string, inRun: bool)
    ensures Alnums(ReplaceRunsFrom(Specials, s, inRun)) == Alnums(s)
  {
    if s != [] {
      var next := IsSpecial(s[0]);
      ReplaceSpecialsAlnums(s[1..], next);
      var x := ReplaceRunsFrom(Specials, s[1..], next);
      if !next || !inRun {
        var c := if next then ' ' else s[0];
        assert ([c] + x)[0] == c && ([c] + x)[1..] == x;
      }
    }
  }

  /** What `replace(/\s+/g, " ")` leaves of `s`: whitespace only as single
      spaces and only characters of `s` besides; inside a run it does not
      start with whitespace. */
  predicate CollapsedFrom(s: string, r: string, inRun: bool) {
    && (forall k :: 0 <= k < |r| ==> IsWs(r[k]) ==> r[k] == ' ')
    && (forall k :: 0 <= k < |r| - 1 ==> !(IsWs(r[k]) && IsWs(r[k + 1])))
    && (forall k :: 0 <= k < |r| ==> r[k] == ' ' || r[k] in s)
    && (inRun && r != [] ==> !IsWs(r[0]))
  }

  lemma {:induction false} CollapseWsShape(s: string, inRun: bool)
    ensures CollapsedFrom(s, ReplaceRunsFrom(Whitespace, s, inRun), inRun)
  {
    if s != [] {
      var next := IsWs(s[0]);
      CollapseWsShape(s[1..], next);
      var x := ReplaceRunsFrom(Whitespace, s[1..], next);
      if !next {
        ConsShape(s, s[0], x, false, inRun);
      } else if inRun {
        TailShape(s, x);
      } else {
        ConsShape(s, ' ', x, true, false);
      }
    }
  }

  /** A kept character, or the space that opens a run, in front of the
      collapsed rest. */
  lemma ConsShape(s: string, c: char, x: string, tailInRun: bool, inRun: bool)
    requires s != [] && CollapsedFrom(s[1..], x, tailInRun)
    requires (c == s[0] && !IsWs(c)) || (c == ' ' && tailInRun && !inRun)
    ensures CollapsedFrom(s, [c] + x, inRun)
  {
    var r := [c] + x;
    forall k | 1 <= k < |r|
      ensures r[k] == x[k - 1]
      ensures r[k] == ' ' || r[k] in s
    {
      if r[k] != ' ' {
        InTail(r[k], s);
      }
    }
  }

  /** The rest of a run adds nothing. */
  lemma TailShape(s: string, x: string)
    requires s != [] && CollapsedFrom(s[1..], x, true)
    ensures CollapsedFrom(s, x, true)
  {
    forall k | 0 <= k < |x| && x[k] != ' '
      ensures x[k] in s
    {
      InTail(x[k], s);
    }
  }

  /** A character of the tail is a character of the whole. */
  lemma InTail(c: char, s: string)
    requires s != [] && c in s[1..]
    ensures c in s
  {
    var i :| 0 <= i < |s[1..]| && s[1..][i] == c;
    assert s[i + 1] == c;
  }

  lemma {:induction false} CollapseWsNonWs(s: string, inRun: bool)
    ensures NonWs(ReplaceRunsFrom(Whitespace, s, inRun)) == NonWs(s)
  {
    if s != [] {
      var next := IsWs(s[0]);
      CollapseWsNonWs(s[1..], next);
      var x := ReplaceRunsFrom(Whitespace, s[1..], next);
      if !next || !inRun {
        var c := if next then ' ' else s[0];
        assert ([c] + x)[0] == c && ([c] + x)[1..] == x;
      }
    }
  }

  /** `s.replace(/X+/g, " ")` is `s.split(/X+/).join(" ")`: the pieces
      between the runs survive in order, with exactly one space between
      neighbours. Inside a run the empty first piece is not joined. */
  lemma {:induction false} RunsAsFields(cls: Class, s: string)
    ensures ReplaceRuns(cls, s) == Lines.Join(Fields(cls, s), ' ')
    ensures s != [] && InClass(cls, s[0]) ==>
      var f := Fields(cls, s);
      |f| >= 2 && f[0] == [] && ReplaceRunsFrom(cls, s, true) == Lines.Join(f[1..], ' ')
  {
    if s != [] {
      RunsAsFields(cls, s[1..]);
      if !InClass(cls, s[0]) {
        Lines.JoinExtendFirst(s[0], Fields(cls, s[1..]), ' ');
      } else if |s| > 1 && InClass(cls, s[1]) {
        FieldsInRun(cls, s);
      } else {
        FieldsRunEnd(cls, s);
      }
    }
  }

  /** A run that goes on after its first character. */
  lemma FieldsInRun(cls: Class, s: string)
    requires |s| > 1 && InClass(cls, s[0]) && InClass(cls, s[1])
    requires var f := Fields(cls, s[1..]);
      |f| >= 2 && f[0] == [] && ReplaceRunsFrom(cls, s[1..], true) == Lines.Join(f[1..], ' ')
    ensures ReplaceRuns(cls, s) == Lines.Join(Fields(cls, s), ' ')
    ensures var f := Fields(cls, s);
      |f| >= 2 && f[0] == [] && ReplaceRunsFrom(cls, s, true) == Lines.Join(f[1..], ' ')
  {
    var f := Fields(cls, s[1..]);
    var j := Lines.Join(f[1..], ' ');
    assert Fields(cls, s) == f;
    assert ReplaceRunsFrom(cls, s, true) == ReplaceRunsFrom(cls, s[1..], true);
    assert ReplaceRuns(cls, s) == " " + j;
    assert f == [f[0]] + f[1..];
    Lines.JoinCons(f[0], f[1..], ' ');
    assert f[0] + [' '] + j == " " + j;
  }

  /** A run of one character, at the end or before a kept character. */
  lemma FieldsRunEnd(cls: Class, s: string)
    requires s != [] && InClass(cls, s[0]) && (|s| == 1 || !InClass(cls, s[1]))
    requires ReplaceRuns(cls, s[1..]) == Lines.Join(Fields(cls, s[1..]), ' ')
    ensures ReplaceRuns(cls, s) == Lines.Join(Fields(cls, s), ' ')
    ensures var f := Fields(cls, s);
      |f| >= 2 && f[0] == [] && ReplaceRunsFrom(cls, s, true) == Lines.Join(f[1..], ' ')
  {
    var f := Fields(cls, s[1..]);
    var j := Lines.Join(f, ' ');
    RunEnds(cls, s[1..]);
    assert ReplaceRunsFrom(cls, s, true) == j;
    assert ReplaceRuns(cls, s) == " " + j;
    FieldsOpenRun(cls, s);
  }

  /** Outside the class the scan does not depend on the flag. */
  lemma RunEnds(cls: Class, t: string)
    requires t == [] || !InClass(cls, t[0])
    ensures ReplaceRunsFrom(cls, t, true) == ReplaceRunsFrom(cls, t, false)
  {
  }

  /** A run of one character opens an empty first piece. */
  lemma FieldsOpenRun(cls: Class, s: string)
    requires s != [] && InClass(cls, s[0]) && (|s| == 1 || !InClass(cls, s[1]))
    ensures var f := Fields(cls, s[1..]);
      Fields(cls, s) == [[]] + f && Lines.Join([[]] + f, ' ') == " " + Lines.Join(f, ' ')
  {
    var f := Fields(cls, s[1..]);
    Lines.JoinCons([], f, ' ');
    assert [] + [' '] + Lines.Join(f, ' ') == " " + Lines.Join(f, ' ');
  }

  // ---------------------------------------------------------------------
  // Each run becomes exactly one space: the chain as words
  // ---------------------------------------------------------------------

  /** The two replacements together replace every run of characters other
      than ASCII letters and digits. The Specials scan may be inside a run
      only when the combined scan is. */
  lemma {:induction false} ChainFrom(s: string, inSpecials: bool, inRun: bool)
    requires inSpecials ==> inRun
    ensures ReplaceRunsFrom(Whitespace, ReplaceRunsFrom(Specials, s, inSpecials), inRun)
      == ReplaceRunsFrom(Separators, s, inRun)
  {
    if s != [] {
      if IsAlnum(s[0]) {
        ChainFrom(s[1..], false, false);
        ChainKeep(s, inSpecials, inRun);
      } else if IsWs(s[0]) {
        ChainFrom(s[1..], false, true);
        ChainWs(s, inSpecials, inRun);
      } else {
        ChainFrom(s[1..], true, true);
        ChainSpecial(s, inSpecials, inRun);
      }
    }
  }

  /** A letter or digit passes both scans and ends every run. */
  lemma ChainKeep(s: string, inSpecials: bool, inRun: bool)
    requires s != [] && IsAlnum(s[0])
    requires ReplaceRunsFrom(Whitespace, ReplaceRunsFrom(Specials, s[1..], false), false)
      == ReplaceRunsFrom(Separators, s[1..], false)
    ensures ReplaceRunsFrom(Whitespace, ReplaceRunsFrom(Specials, s, inSpecials), inRun)
      == ReplaceRunsFrom(Separators, s, inRun)
  {
    var x := ReplaceRunsFrom(Specials, s[1..], false);
    AlnumIsNotWs(s[0]);
    assert ReplaceRunsFrom(Specials, s, inSpecials) == [s[0]] + x;
    assert ([s[0]] + x)[0] == s[0] && ([s[0]] + x)[1..] == x;
  }

  /** A whitespace character passes the Specials scan and is a separator. */
  lemma ChainWs(s: string, inSpecials: bool, inRun: bool)
    requires s != [] && IsWs(s[0])
    requires ReplaceRunsFrom(Whitespace, ReplaceRunsFrom(Specials, s[1..], false), true)
      == ReplaceRunsFrom(Separators, s[1..], true)
    ensures ReplaceRunsFrom(Whitespace, ReplaceRunsFrom(Specials, s, inSpecials), inRun)
      == ReplaceRunsFrom(Separators, s, inRun)
  {
    var x := ReplaceRunsFrom(Specials, s[1..], false);
    assert ReplaceRunsFrom(Specials, s, inSpecials) == [s[0]] + x;
    assert ([s[0]] + x)[0] == s[0] && ([s[0]] + x)[1..] == x;
  }

  /** A special character becomes at most one space, which the
      whitespace scan treats as the separator it is. */
  lemma ChainSpecial(s: string, inSpecials: bool, inRun: bool)
    requires s != [] && IsSpecial(s[0]) && (inSpecials ==> inRun)
    requires ReplaceRunsFrom(Whitespace, ReplaceRunsFrom(Specials, s[1..], true), true)
      == ReplaceRunsFrom(Separators, s[1..], true)
    ensures ReplaceRunsFrom(Whitespace, ReplaceRunsFrom(Specials, s, inSpecials), inRun)
      == ReplaceRunsFrom(Separators, s, inRun)
  {
    var x := ReplaceRunsFrom(Specials, s[1..], true);
    if !inSpecials {
      assert ReplaceRunsFrom(Specials, s, inSpecials) == " " + x;
      assert (" " + x)[0] == ' ' && (" " + x)[1..] == x;
    }
  }

  /** `replace(/[^a-zA-Z0-9\s]+/g, " ")` followed by `replace(/\s+/g, " ")`
      is `replace(/[^a-zA-Z0-9]+/g, " ")`. */
  lemma ChainIsSeparatorRuns(s: string)
    ensures CollapseWs(ReplaceSpecials(s)) == ReplaceRuns(Separators, s)
  {
    ChainFrom(s, false, false);
  }

  lemma {:induction false} WordsAreWords(s: string)
    ensures forall i :: 0 <= i < |Words(s)| ==> IsWord(Words(s)[i])
  {
    if s != [] {
      WordsAreWords(s[1..]);
      var ws := Words(s[1..]);
      if IsAlnum(s[0]) {
        if |s| > 1 && IsAlnum(s[1]) {
          WordCons(s[0], ws[0]);
          assert forall i :: 1 <= i < |ws| ==> ([[s[0]] + ws[0]] + ws[1..])[i] == ws[i];
        } else {
          assert IsWord([s[0]]);
          assert forall i :: 1 <= i < |[[s[0]]] + ws| ==> ([[s[0]]] + ws)[i] == ws[i - 1];
        }
      }
    }
  }

  lemma WordCons(c: char, w: string)
    requires IsAlnum(c) && IsWord(w)
    ensures IsWord([c] + w)
  {
    assert forall k :: 1 <= k < |[c] + w| ==> ([c] + w)[k] == w[k - 1];
  }

  lemma {:induction false} JoinedWordsEnds(ws: seq<string>)
    requires forall i :: 0 <= i < |ws| ==> IsWord(ws[i])
    ensures var j := Lines.Join(ws, ' ');
      ws != [] ==> j != [] && !IsWs(j[0]) && !IsWs(j[|j| - 1])
  {
    if |ws| == 1 {
      assert IsWord(ws[0]);
      AlnumIsNotWs(ws[0][0]);
      AlnumIsNotWs(ws[0][|ws[0]| - 1]);
    } else if |ws| > 1 {
      assert forall i :: 0 <= i < |ws| - 1 ==> ws[1..][i] == ws[i + 1];
      JoinedWordsEnds(ws[1..]);
      var t := Lines.Join(ws[1..], ' ');
      assert Lines.Join(ws, ' ') == ws[0] + [' '] + t;
      assert IsWord(ws[0]);
      AlnumIsNotWs(ws[0][0]);
    }
  }

  /** Inside a run the replacement starts with a letter or digit, if it is
      not empty. */
  lemma {:induction false} InRunStart(s: string)
    ensures var g := ReplaceRunsFrom(Separators, s, true);
      g == [] || IsAlnum(g[0])
  {
    if s != [] && !IsAlnum(s[0]) {
      InRunStart(s[1..]);
    }
  }

  /** `trimStart()` removes the space a leading separator run became. */
  lemma TrimStartRuns(s: string)
    ensures TrimStart(ReplaceRuns(Separators, s)) == ReplaceRunsFrom(Separators, s, true)
  {
    if s != [] && !IsAlnum(s[0]) {
      var x := ReplaceRunsFrom(Separators, s[1..], true);
      InRunStart(s[1..]);
      if x != [] {
        AlnumIsNotWs(x[0]);
      }
      assert ReplaceRuns(Separators, s) == " " + x;
      assert (" " + x)[0] == ' ' && (" " + x)[1..] == x;
      assert DropRun(Whitespace, x) == x;
    } else {
      var g := ReplaceRunsFrom(Separators, s, true);
      InRunStart(s);
      if g != [] {
        AlnumIsNotWs(g[0]);
      }
      assert ReplaceRuns(Separators, s) == g;
      assert DropRun(Whitespace, g) == g;
    }
  }

  /** `trimEnd()` leaves a string that does not end in whitespace alone,
      and removes one space after it. */
  lemma TrimEndClean(j: string)
    requires j == [] || !IsWs(j[|j| - 1])
    ensures TrimEnd(j) == j
    ensures j != [] ==> TrimEnd(j + " ") == j
  {
    if j != [] {
      var e := j + " ";
      assert e[..|e| - 1] == j;
    }
  }

  /** Inside a run, replacing the separator runs gives the words joined by
      spaces, with one more space when the string ends in a separator run. */
  predicate Spaced(s: string) {
    var g := ReplaceRunsFrom(Separators, s, true);
    var j := Lines.Join(Words(s), ' ');
    g == j || (Words(s) != [] && g == j + " ")
  }

  lemma {:induction false} SpacedRuns(s: string)
    ensures Spaced(s)
  {
    if s != [] {
      SpacedRuns(s[1..]);
      if IsAlnum(s[0]) {
        if |s| == 1 {
          SpacedLast(s);
        } else if IsAlnum(s[1]) {
          SpacedInWord(s);
        } else {
          SpacedEndWord(s);
        }
      }
    }
  }

  /** A last letter or digit is a word of its own. */
  lemma SpacedLast(s: string)
    requires |s| == 1 && IsAlnum(s[0])
    ensures Spaced(s)
  {
    assert s[1..] == [];
    assert Words(s) == [[s[0]]];
    assert ReplaceRunsFrom(Separators, s, true) == [s[0]];
  }

  /** A letter or digit in front of another joins its word. */
  lemma SpacedInWord(s: string)
    requires |s| > 1 && IsAlnum(s[0]) && IsAlnum(s[1])
    requires Spaced(s[1..])
    ensures Spaced(s)
  {
    var t := s[1..];
    var ws := Words(t);
    var g := ReplaceRunsFrom(Separators, t, true);
    var j := Lines.Join(ws, ' ');
    assert ReplaceRunsFrom(Separators, t, false) == g;
    assert ReplaceRunsFrom(Separators, s, true) == [s[0]] + g;
    assert Words(s) == [[s[0]] + ws[0]] + ws[1..];
    Lines.JoinExtendFirst(s[0], ws, ' ');
    if g != j {
      assert [s[0]] + (j + " ") == [s[0]] + j + " ";
    }
  }

  /** A letter or digit in front of a separator ends its word. */
  lemma SpacedEndWord(s: string)
    requires |s| > 1 && IsAlnum(s[0]) && !IsAlnum(s[1])
    requires Spaced(s[1..])
    ensures Spaced(s)
  {
    var t := s[1..];
    var ws := Words(t);
    var g := ReplaceRunsFrom(Separators, t, true);
    assert ReplaceRunsFrom(Separators, t, false) == " " + g;
    assert ReplaceRunsFrom(Separators, s, true) == [s[0]] + (" " + g);
    assert Words(s) == [[s[0]]] + ws;
    if ws == [] {
      assert g == [];
      assert [s[0]] + (" " + []) == [s[0]] + " ";
    } else {
      var j := Lines.Join(ws, ' ');
      Lines.JoinCons([s[0]], ws, ' ');
      assert [s[0]] + (" " + j) == [s[0]] + [' '] + j;
      assert [s[0]] + (" " + (j + " ")) == [s[0]] + [' '] + j + " ";
    }
  }

  /** Before truncation the file name is exactly the title's words, its
      maximal runs of ASCII letters and digits, joined by single spaces:
      every run of other characters becomes one space and the ends are
      cut. */
  lemma NormaliseIsWords(title: string)
    ensures Normalise(title) == Lines.Join(Words(title), ' ')
  {
    ChainIsSeparatorRuns(title);
    TrimRuns(title);
  }

  /** Trimming the string with its separator runs replaced leaves the words
      joined by single spaces. */
  lemma TrimRuns(s: string)
    ensures Trim(ReplaceRuns(Separators, s)) == Lines.Join(Words(s), ' ')
  {
    var g := ReplaceRunsFrom(Separators, s, true);
    var j := Lines.Join(Words(s), ' ');
    TrimStartRuns(s);
    SpacedRuns(s);
    WordsAreWords(s);
    JoinedWordsEnds(Words(s));
    TrimEndClean(j);
    assert Trim(ReplaceRuns(Separators, s)) == TrimEnd(g);
  }

  // ---------------------------------------------------------------------
  // What the sanitised file name looks like
  // ---------------------------------------------------------------------

  /** Only ASCII letters, digits and single spaces, not starting with a
      space. */
  predicate IsSafeName(s: string) {
    && (forall k :: 0 <= k < |s| ==> IsAlnum(s[k]) || s[k] == ' ')
    && (s != [] ==> s[0] != ' ')
    && (forall k :: 0 <= k < |s| - 1 ==> !(s[k] == ' ' && s[k + 1] == ' '))
  }

  /** A safe name that does not end with a space either. */
  predicate IsNormal(s: string) {
    IsSafeName(s) && (s != [] ==> s[|s| - 1] != ' ')
  }

  /** The chain before truncation yields a normal name. */
  lemma NormaliseIsNormal(title: string)
    ensures IsNormal(Normalise(title))
  {
    var r := ReplaceSpecials(title);
    CollapsedChars(r);
    TrimmedIsNormal(CollapseWs(r));
  }

  /** Collapsing a string without special characters leaves only letters,
      digits and spaces. */
  lemma CollapsedChars(r: string)
    requires forall k :: 0 <= k < |r| ==> !IsSpecial(r[k])
    ensures var c := CollapseWs(r); forall k :: 0 <= k < |c| ==> IsAlnum(c[k]) || c[k] == ' '
  {
    var c := CollapseWs(r);
    forall k | 0 <= k < |c| ensures IsAlnum(c[k]) || c[k] == ' ' {
      if !IsWs(c[k]) && c[k] != ' ' {
        assert c[k] in r;
        var m :| 0 <= m < |r| && r[m] == c[k];
        assert !IsSpecial(r[m]);
      }
    }
  }

  /** Trimming a string of letters, digits and single spaces gives a
      normal name. */
  lemma TrimmedIsNormal(c: string)
    requires forall k :: 0 <= k < |c| ==> IsAlnum(c[k]) || c[k] == ' '
    requires forall k :: 0 <= k < |c| - 1 ==> !(IsWs(c[k]) && IsWs(c[k + 1]))
    ensures IsNormal(Trim(c))
  {
    var t := TrimStart(c);
    var n := TrimEnd(t);
    assert Trim(c) == n;
    TrimEndOfSlice(c, t, n);
    SingleSpacedIsNormal(n);
  }

  /** Trailing whitespace removed from the slice left by `trimStart`. */
  lemma TrimEndOfSlice(c: string, t: string, n: string)
    requires forall k :: 0 <= k < |c| ==> IsAlnum(c[k]) || c[k] == ' '
    requires forall k :: 0 <= k < |c| - 1 ==> !(IsWs(c[k]) && IsWs(c[k + 1]))
    requires |t| <= |c| && t == c[|c| - |t|..] && (t == [] || !IsWs(t[0]))
    requires n <= t && (n == [] || !IsWs(n[|n| - 1]))
    ensures forall k :: 0 <= k < |n| ==> IsAlnum(n[k]) || n[k] == ' '
    ensures forall k :: 0 <= k < |n| - 1 ==> !(IsWs(n[k]) && IsWs(n[k + 1]))
    ensures n == [] || (!IsWs(n[0]) && !IsWs(n[|n| - 1]))
  {
    var a := |c| - |t|;
    assert n == c[a..a + |n|];
    SliceIsSafe(c, a, n);
    if n != [] {
      assert n[0] == t[0];
    }
  }

  /** Letters, digits and single spaces, with no whitespace at either end,
      make a normal name. */
  lemma SingleSpacedIsNormal(n: string)
    requires forall k :: 0 <= k < |n| ==> IsAlnum(n[k]) || n[k] == ' '
    requires forall k :: 0 <= k < |n| - 1 ==> !(IsWs(n[k]) && IsWs(n[k + 1]))
    requires n == [] || (!IsWs(n[0]) && !IsWs(n[|n| - 1]))
    ensures IsNormal(n)
  {
    assert IsWs(' ');
  }

  /** A slice of a string of letters, digits and single spaces is one
      too. */
  lemma SliceIsSafe(c: string, a: nat, n: string)
    requires a + |n| <= |c| && n == c[a..a + |n|]
    requires forall k :: 0 <= k < |c| ==> IsAlnum(c[k]) || c[k] == ' '
    requires forall k :: 0 <= k < |c| - 1 ==> !(IsWs(c[k]) && IsWs(c[k + 1]))
    ensures forall k :: 0 <= k < |n| ==> IsAlnum(n[k]) || n[k] == ' '
    ensures forall k :: 0 <= k < |n| - 1 ==> !(IsWs(n[k]) && IsWs(n[k + 1]))
  {
    assert forall k :: 0 <= k < |n| ==> n[k] == c[a + k];
  }

  /** A prefix of a safe name is safe. */
  lemma SafePrefix(p: string, s: string)
    requires IsSafeName(s) && p <= s
    ensures IsSafeName(p)
  {
    assert forall k :: 0 <= k < |p| ==> p[k] == s[k];
  }

  /** Every character of the file name is an ASCII letter, a digit or a
      space; it has at most 100 characters, does not start with a space
      and has no two spaces in a row. */
  lemma SanitiseIsSafe(title: string)
    ensures IsSafeName(Sanitise(title))
    ensures |Sanitise(title)| <= MaxLength
  {
    NormaliseIsNormal(title);
    SafePrefix(Sanitise(title), Normalise(title));
  }

  /** The file name is a prefix of the normalised title, and all of it when
      that has at most 100 characters. */
  lemma SanitiseIsPrefix(title: string)
    ensures Sanitise(title) <= Normalise(title)
    ensures |Normalise(title)| <= MaxLength <==> Sanitise(title) == Normalise(title)
  {
  }

  /** Without its spaces the file name is a prefix of the title's ASCII
      letters and digits in their original order; all of them when nothing
      was cut off. */
  lemma SanitiseKeepsAlnums(title: string)
    ensures NonSpaces(Sanitise(title)) <= Alnums(title)
    ensures |Normalise(title)| <= MaxLength ==> NonSpaces(Sanitise(title)) == Alnums(title)
  {
    var r := ReplaceSpecials(title);
    var c := CollapseWs(r);
    var n := Trim(c);
    var out := Sanitise(title);
    NormaliseIsNormal(title);
    NonWsIsAlnums(r);
    NonWsIsAlnums(n);
    assert Alnums(n) == Alnums(title);
    SanitiseIsSafe(title);
    NonSpacesIsAlnums(out);
    AlnumsPrefix(out, n);
  }

  /** The file name is empty exactly when the title has no ASCII letter or
      digit. */
  lemma SanitiseEmptyIff(title: string)
    ensures Sanitise(title) == [] <==> Alnums(title) == []
  {
    var out := Sanitise(title);
    SanitiseKeepsAlnums(title);
    SanitiseIsSafe(title);
    if out != [] {
      assert NonSpaces(out) == [out[0]] + NonSpaces(out[1..]);
    } else {
      assert |Normalise(title)| == 0;
    }
  }

  lemma {:induction false} ReplaceRunsNoRun(cls: Class, s: string, inRun: bool)
    requires forall k :: 0 <= k < |s| ==> !InClass(cls, s[k])
    ensures ReplaceRunsFrom(cls, s, inRun) == s
  {
    if s != [] {
      ReplaceRunsNoRun(cls, s[1..], false);
      assert s == [s[0]] + s[1..];
    }
  }

  lemma {:induction false} CollapseNormal(s: string, inRun: bool)
    requires forall k :: 0 <= k < |s| ==> IsAlnum(s[k]) || s[k] == ' '
    requires forall k :: 0 <= k < |s| - 1 ==> !(s[k] == ' ' && s[k + 1] == ' ')
    requires inRun ==> s == [] || s[0] != ' '
    ensures ReplaceRunsFrom(Whitespace, s, inRun) == s
  {
    if s != [] {
      var t := s[1..];
      SingleSpacedTail(s);
      if s[0] == ' ' {
        CollapseNormal(t, true);
      } else {
        AlnumIsNotWs(s[0]);
        CollapseNormal(t, false);
      }
      assert s == [s[0]] + t;
    }
  }

  /** The tail of a single-spaced string of letters, digits and spaces is
      one too. */
  lemma SingleSpacedTail(s: string)
    requires s != []
    requires forall k :: 0 <= k < |s| ==> IsAlnum(s[k]) || s[k] == ' '
    requires forall k :: 0 <= k < |s| - 1 ==> !(s[k] == ' ' && s[k + 1] == ' ')
    ensures forall k :: 0 <= k < |s| - 1 ==> IsAlnum(s[1..][k]) || s[1..][k] == ' '
    ensures forall k :: 0 <= k < |s| - 2 ==> !(s[1..][k] == ' ' && s[1..][k + 1] == ' ')
    ensures |s| > 1 && s[0] == ' ' ==> IsAlnum(s[1])
  {
    assert forall k :: 0 <= k < |s| - 1 ==> s[1..][k] == s[k + 1];
  }

  /** ASCII letters and digits are not whitespace. */
  lemma AlnumIsNotWs(c: char)
    requires IsAlnum(c)
    ensures !IsWs(c)
  {
  }

  /** A name that is already normal comes out unchanged. */
  lemma NormaliseFixesNormal(s: string)
    requires IsNormal(s)
    ensures Normalise(s) == s
  {
    ReplaceRunsNoRun(Specials, s, false);
    CollapseNormal(s, false);
  }

  /** Normalising twice is normalising once. */
  lemma NormaliseIdempotent(title: string)
    ensures Normalise(Normalise(title)) == Normalise(title)
  {
    NormaliseIsNormal(title);
    NormaliseFixesNormal(Normalise(title));
  }

  /** A normal name of at most 100 characters is its own file name. */
  lemma SanitiseFixesNormal(s: string)
    requires IsNormal(s) && |s| <= MaxLength
    ensures Sanitise(s) == s
  {
    NormaliseFixesNormal(s);
  }

  // ---------------------------------------------------------------------
  // Which title is chosen
  // ---------------------------------------------------------------------

  /** `(i, j)` is the match `exec` reports: no match starts earlier, and
      none starting at `i` closes earlier. */
  ghost predicate IsFirstMatch(s: string, open: string, close: string, i: int, j: int) {
    && IsMatch(s, open, close, i, j)
    && forall i', j' :: IsMatch(s, open, close, i', j') ==> i < i' || (i == i' && j <= j')
  }

  ghost predicate HasMatch(s: string, open: string, close: string) {
    exists i, j :: IsMatch(s, open, close, i, j)
  }

  /** The title is the group of the first single-line `<h1>` match, even
      when a `<title>` element comes earlier in the page. */
  lemma TitleFromH1(html: string, i: int, j: int)
    requires IsFirstMatch(html, H1Open, H1Close, i, j)
    ensures Title(html) == html[i + |H1Open|..j]
  {
    var m := Exec(html, H1Open, H1Close);
    assert m.Some?;
    assert m.value == Span(i, j);
  }

  /** Without an `<h1>` match the title is the group of the first
      single-line `<title>` match. */
  lemma TitleFromTitleTag(html: string, i: int, j: int)
    requires !HasMatch(html, H1Open, H1Close)
    requires IsFirstMatch(html, TitleOpen, TitleClose, i, j)
    ensures Title(html) == html[i + |TitleOpen|..j]
  {
    var m := Exec(html, TitleOpen, TitleClose);
    assert Exec(html, H1Open, H1Close).None?;
    assert m.Some?;
    assert m.value == Span(i, j);
  }

  /** With neither match the title is "article". */
  lemma TitleDefault(html: string)
    requires !HasMatch(html, H1Open, H1Close) && !HasMatch(html, TitleOpen, TitleClose)
    ensures Title(html) == DefaultTitle
  {
    assert Exec(html, H1Open, H1Close).None?;
    assert Exec(html, TitleOpen, TitleClose).None?;
  }

  /** When the first `<h1>` match is an empty `<h1></h1>` the file name is
      empty: `??` falls back only on a missing match. */
  lemma EmptyH1(html: string, i: int)
    requires OccursAt(html, H1Open + H1Close, i)
    requires forall i', j' :: i' < i ==> !IsMatch(html, H1Open, H1Close, i', j')
    ensures ConstructFileName(html) == []
  {
    var w := html[i..i + 9];
    assert w == H1Open + H1Close;
    assert html[i..i + 4] == w[..4] == H1Open;
    assert html[i + 4..i + 9] == w[4..] == H1Close;
    assert IsFirstMatch(html, H1Open, H1Close, i, i + 4);
    TitleFromH1(html, i, i + 4);
    assert Title(html) == [];
    assert ReplaceSpecials([]) == [];
    assert CollapseWs([]) == [];
  }

  /** `constructFileName` returns a safe name of at most 100 characters made
      of the chosen title's letters and digits in order. */
  lemma ConstructFileNameIsSafe(html: string)
    ensures IsSafeName(ConstructFileName(html))
    ensures |ConstructFileName(html)| <= MaxLength
    ensures NonSpaces(ConstructFileName(html)) <= Alnums(Title(html))
  {
    SanitiseIsSafe(Title(html));
    SanitiseKeepsAlnums(Title(html));
  }
}
