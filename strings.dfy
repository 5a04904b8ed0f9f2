/** The three routines of Go's `strings` package that the decoder and the
    locality filter rely on: `Fields`, `Split` and `HasPrefix`, with the
    inverse operations (`Laid`, `Join`) that their round-trip lemmas use. */
module Strings {

  /** Go's `unicode.IsSpace`: the Latin-1 spaces and the other code points
      with the Unicode White_Space property. */
  predicate IsSpace(c: char) {
    c == ' ' || c == '\t' || c == '\n' || c == '\U{000B}' || c == '\U{000C}' || c == '\r'
    || c == '\U{0085}' || c == '\U{00A0}' || c == '\U{1680}'
    || ('\U{2000}' <= c <= '\U{200A}')
    || c == '\U{2028}' || c == '\U{2029}' || c == '\U{202F}' || c == '\U{205F}' || c == '\U{3000}'
  }

  /** What `Fields` can produce: a non-empty run of non-space characters. */
  predicate IsWord(w: string) {
    |w| > 0 && forall i :: 0 <= i < |w| ==> !IsSpace(w[i])
  }

  /** Printable ASCII other than the space is never white space. */
  lemma PrintableIsWord(w: string)
    requires |w| > 0 && forall i :: 0 <= i < |w| ==> '!' <= w[i] <= '~'
    ensures IsWord(w)
  {
  }

  function TrimLeftSpace(s: string): (t: string)
    ensures |t| <= |s|
    ensures t == [] || !IsSpace(t[0])
  {
    if s != [] && IsSpace(s[0]) then TrimLeftSpace(s[1..]) else s
  }

  lemma {:induction false} TrimLeftSpaceSuffix(s: string)
    ensures TrimLeftSpace(s) == s[|s| - |TrimLeftSpace(s)|..]
    decreases |s|
  {
    if s != [] && IsSpace(s[0]) {
      var t := TrimLeftSpace(s[1..]);
      TrimLeftSpaceSuffix(s[1..]);
      assert s[1..][|s| - 1 - |t|..] == s[|s| - |t|..];
    }
  }

  lemma {:induction false} TrimLeftSpaceLead(s: string)
    ensures forall i :: 0 <= i < |s| - |TrimLeftSpace(s)| ==> IsSpace(s[i])
    decreases |s|
  {
    if s != [] && IsSpace(s[0]) {
      var t := TrimLeftSpace(s[1..]);
      TrimLeftSpaceLead(s[1..]);
      forall i | 1 <= i < |s| - |t|
        ensures IsSpace(s[i])
      {
        assert s[i] == s[1..][i - 1];
      }
    }
  }

  /** What `TrimLeftSpace` removes is a run of white space in front. */
  lemma TrimLeftSpaceRun(s: string)
    ensures s == s[..|s| - |TrimLeftSpace(s)|] + TrimLeftSpace(s)
    ensures AllSpace(s[..|s| - |TrimLeftSpace(s)|])
  {
    var k := |s| - |TrimLeftSpace(s)|;
    TrimLeftSpaceSuffix(s);
    TrimLeftSpaceLead(s);
    assert s == s[..k] + s[k..];
    forall i | 0 <= i < k
      ensures IsSpace(s[..k][i])
    {
      assert s[..k][i] == s[i];
    }
  }

  /** Length of the longest space-free prefix of `s`. */
  function WordLen(s: string): (n: nat)
    ensures n <= |s|
    ensures forall i :: 0 <= i < n ==> !IsSpace(s[i])
    ensures n == |s| || IsSpace(s[n])
  {
    if s == [] || IsSpace(s[0]) then 0 else 1 + WordLen(s[1..])
  }

  /** `strings.Fields`: the maximal runs of non-space characters, in order. */
  function Fields(s: string): (fs: seq<string>)
    ensures forall i :: 0 <= i < |fs| ==> IsWord(fs[i])
    decreases |s|
  {
    var t := TrimLeftSpace(s);
    if t == [] then []
    else
      var n := WordLen(t);
      [t[..n]] + Fields(t[n..])
  }

  lemma WordLenOfWord(w: string, x: string)
    requires IsWord(w)
    requires x == [] || IsSpace(x[0])
    ensures WordLen(w + x) == |w|
  {
    var s := w + x;
    assert forall i :: 0 <= i < |w| ==> s[i] == w[i];
    assert |w| == |s| || s[|w|] == x[0];
  }

  lemma FieldsSkipsSpace(c: char, s: string)
    requires IsSpace(c)
    ensures Fields([c] + s) == Fields(s)
  {
    assert ([c] + s)[1..] == s;
  }

  /** A run made of white space only (possibly empty). */
  predicate AllSpace(sp: string) {
    forall i :: 0 <= i < |sp| ==> IsSpace(sp[i])
  }

  /** A run of white space in front of the text adds no field. */
  lemma {:induction false} FieldsSkipsRun(sp: string, u: string)
    requires AllSpace(sp)
    ensures Fields(sp + u) == Fields(u)
    decreases |sp|
  {
    if sp == [] {
      assert sp + u == u;
    } else {
      assert sp + u == [sp[0]] + (sp[1..] + u);
      FieldsSkipsSpace(sp[0], sp[1..] + u);
      FieldsSkipsRun(sp[1..], u);
    }
  }

  /** A word that ends at white space (or at the end) is the next field. */
  lemma FieldsWordThen(w: string, x: string)
    requires IsWord(w)
    requires x == [] || IsSpace(x[0])
    ensures Fields(w + x) == [w] + Fields(x)
  {
    var s := w + x;
    WordLenOfWord(w, x);
    assert s[0] == w[0];
    assert TrimLeftSpace(s) == s;
    assert s[..|w|] == w;
    assert s[|w|..] == x;
  }

  /** The words, each preceded by its own run of white space, followed by
      the trailing run. */
  function Laid(gaps: seq<string>, ws: seq<string>, trail: string): string
    requires |gaps| == |ws|
  {
    if ws == [] then trail else gaps[0] + (ws[0] + Laid(gaps[1..], ws[1..], trail))
  }

  /** Runs of white space that can separate words: the leading one may be
      empty, every later one holds at least one space character. */
  predicate Separators(gaps: seq<string>) {
    forall i :: 0 <= i < |gaps| ==> AllSpace(gaps[i]) && (i > 0 ==> gaps[i] != [])
  }

  /** The text behind the first word of laid-out words starts with white
      space, or is the bare trailing run. */
  lemma LaidRest(gaps: seq<string>, ws: seq<string>, trail: string)
    requires |gaps| == |ws| > 0 && Separators(gaps) && AllSpace(trail)
    ensures var x := Laid(gaps[1..], ws[1..], trail); x == [] || IsSpace(x[0])
    ensures Separators(gaps[1..])
  {
    if |ws| > 1 {
      assert gaps[1] != [] && AllSpace(gaps[1]);
      assert Laid(gaps[1..], ws[1..], trail)[0] == gaps[1][0];
    }
    assert forall i :: 1 <= i < |gaps| ==> gaps[1..][i - 1] == gaps[i];
  }

  /** Whatever the padding in front, between and after the words, `Fields`
      gives back exactly the words. */
  lemma {:induction false} FieldsOfLaid(gaps: seq<string>, ws: seq<string>, trail: string)
    requires |gaps| == |ws| && Separators(gaps) && AllSpace(trail)
    requires forall i :: 0 <= i < |ws| ==> IsWord(ws[i])
    ensures Fields(Laid(gaps, ws, trail)) == ws
    decreases |ws|
  {
    if ws == [] {
      assert trail == trail + "";
      FieldsSkipsRun(trail, "");
    } else {
      var x := Laid(gaps[1..], ws[1..], trail);
      LaidRest(gaps, ws, trail);
      FieldsSkipsRun(gaps[0], ws[0] + x);
      FieldsWordThen(ws[0], x);
      FieldsOfLaid(gaps[1..], ws[1..], trail);
    }
  }

  /** The white space of `s` around its fields: the run in front of each
      field, and the run after the last one. */
  function Layout(s: string): (r: (seq<string>, string))
    ensures |r.0| == |Fields(s)|
    decreases |s|
  {
    var t := TrimLeftSpace(s);
    if t == [] then ([], s)
    else
      var n := WordLen(t);
      var rest := Layout(t[n..]);
      ([s[..|s| - |t|]] + rest.0, rest.1)
  }

  /** The run in front of the first field of a text that starts with white
      space is not empty. */
  lemma LayoutLeadNonEmpty(u: string)
    requires u != [] && IsSpace(u[0]) && |Layout(u).0| > 0
    ensures Layout(u).0[0] != []
  {
    var t := TrimLeftSpace(u);
    assert t != [];
    assert t != u;
    assert |u| - |t| > 0;
  }

  /** The runs `Layout` finds are white space, and every run behind a field
      is non-empty. */
  lemma {:induction false} LayoutSeparators(s: string)
    ensures Separators(Layout(s).0) && AllSpace(Layout(s).1)
    decreases |s|
  {
    var t := TrimLeftSpace(s);
    TrimLeftSpaceRun(s);
    if t != [] {
      var n := WordLen(t);
      var u := t[n..];
      LayoutSeparators(u);
      var g := Layout(u).0;
      var gs := [s[..|s| - |t|]] + g;
      assert Layout(s).0 == gs;
      if |g| > 0 {
        assert u != [] && u[0] == t[n];
        LayoutLeadNonEmpty(u);
      }
      forall i | 0 <= i < |gs|
        ensures AllSpace(gs[i]) && (i > 0 ==> gs[i] != [])
      {
        if i > 0 {
          assert gs[i] == g[i - 1];
        }
      }
    }
  }

  /** Every string is its fields laid out between runs of white space, each
      run after the first one non-empty: with `FieldsOfLaid`, the fields of
      a string are exactly its maximal runs of non-space characters. */
  lemma {:induction false} FieldsLayout(s: string)
    ensures Separators(Layout(s).0) && AllSpace(Layout(s).1)
    ensures s == Laid(Layout(s).0, Fields(s), Layout(s).1)
    decreases |s|
  {
    LayoutSeparators(s);
    var t := TrimLeftSpace(s);
    TrimLeftSpaceRun(s);
    if t != [] {
      var n := WordLen(t);
      var u := t[n..];
      FieldsLayout(u);
      var lead, g, ws := s[..|s| - |t|], Layout(u).0, Fields(u);
      assert Fields(s) == [t[..n]] + ws;
      assert Layout(s) == ([lead] + g, Layout(u).1);
      assert ([lead] + g)[1..] == g && ([t[..n]] + ws)[1..] == ws;
      assert t == t[..n] + u;
    }
  }

  /** `strings.Split(s, sep)` for a one-character separator: the pieces
      between separators, empty pieces included. */
  function Split(s: string, sep: char): (parts: seq<string>)
    ensures |parts| >= 1
    ensures forall i :: 0 <= i < |parts| ==> sep !in parts[i]
    ensures sep in s <==> |parts| >= 2
    decreases |s|
  {
    if s == [] then [""]
    else
      var rest := Split(s[1..], sep);
      if s[0] == sep then [""] + rest
      else [[s[0]] + rest[0]] + rest[1..]
  }

  /** `strings.Join(parts, sep)`, the inverse of `Split`. */
  function Join(parts: seq<string>, sep: char): string
    requires |parts| >= 1
  {
    if |parts| == 1 then parts[0] else parts[0] + [sep] + Join(parts[1..], sep)
  }

  lemma {:induction false} SplitJoin(s: string, sep: char)
    ensures Join(Split(s, sep), sep) == s
    decreases |s|
  {
    if s != [] {
      var rest := Split(s[1..], sep);
      SplitJoin(s[1..], sep);
      if s[0] == sep {
        assert s == [sep] + s[1..];
      } else if |rest| == 1 {
        assert s == [s[0]] + s[1..];
      } else {
        assert rest == [rest[0]] + rest[1..];
        assert Join(rest, sep) == rest[0] + [sep] + Join(rest[1..], sep);
        Regroup([s[0]], rest[0], [sep], Join(rest[1..], sep));
        assert s == [s[0]] + s[1..];
      }
    }
  }

  lemma Regroup(a: string, b: string, c: string, d: string)
    ensures a + (b + c + d) == (a + b) + c + d
  {
  }

  lemma {:induction false} SplitPrefix(p: string, r: string, sep: char)
    requires sep !in p
    ensures Split(p + r, sep) == [p + Split(r, sep)[0]] + Split(r, sep)[1..]
    decreases |p|
  {
    if p != [] {
      var parts := Split(r, sep);
      assert (p + r)[1..] == p[1..] + r;
      SplitPrefix(p[1..], r, sep);
      var rest := Split(p[1..] + r, sep);
      assert rest[0] == p[1..] + parts[0] && rest[1..] == parts[1..];
      assert [(p + r)[0]] + rest[0] == p + parts[0];
    } else {
      var parts := Split(r, sep);
      assert p + r == r;
      assert p + parts[0] == parts[0];
      assert parts == [parts[0]] + parts[1..];
    }
  }

  lemma {:induction false} JoinSplit(parts: seq<string>, sep: char)
    requires |parts| >= 1
    requires forall i :: 0 <= i < |parts| ==> sep !in parts[i]
    ensures Split(Join(parts, sep), sep) == parts
  {
    if |parts| == 1 {
      SplitPrefix(parts[0], "", sep);
      assert parts[0] + "" == parts[0];
    } else {
      var r := [sep] + Join(parts[1..], sep);
      assert Join(parts, sep) == parts[0] + r;
      SplitPrefix(parts[0], r, sep);
      assert r[1..] == Join(parts[1..], sep);
      JoinSplit(parts[1..], sep);
      assert parts[0] + "" == parts[0];
    }
  }

  /** `strings.HasPrefix`. */
  predicate HasPrefix(s: string, prefix: string) {
    |prefix| <= |s| && s[..|prefix|] == prefix
  }
}
