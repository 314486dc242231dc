/** `do_include`: the source preprocessor that replaces `#include "file"` lines
    by the (expanded) file before the source is sent to the online compiler. */
module Include {
  import opened Outcomes
  import opened Text

  const Marker: string := "#include"

  /** `pat` occurs somewhere in `s`. */
  predicate Contains(s: string, pat: string)
    decreases |s|
  {
    StartsWith(s, pat) || (s != [] && Contains(s[1..], pat))
  }

  lemma {:induction false} ContainsAt(s: string, pat: string, i: nat)
    requires i <= |s| && StartsWith(s[i..], pat)
    ensures Contains(s, pat)
    decreases i
  {
    if i > 0 {
      assert s[1..][i - 1..] == s[i..];
      ContainsAt(s[1..], pat, i - 1);
    } else {
      assert s[0..] == s;
    }
  }

  /** One match of `^#include\s+"(.*)"$`: where it starts and ends in the
      document, and the captured file name. */
  datatype Directive = Directive(start: nat, end: nat, target: string)

  /** `^` in multi-line mode: the start of the text or just after a newline. */
  predicate LineStart(doc: string, s: nat)
    requires s <= |doc|
  {
    s == 0 || doc[s - 1] == '\n'
  }

  /** Where the line containing position i ends: the next newline, or the end. */
  function LineEnd(doc: string, i: nat): (e: nat)
    requires i <= |doc|
    ensures i <= e <= |doc| && (e == |doc| || doc[e] == '\n')
    ensures forall k :: i <= k < e ==> doc[k] != '\n'
    decreases |doc| - i
  {
    if i == |doc| || doc[i] == '\n' then i else LineEnd(doc, i + 1)
  }

  /** Where the whitespace run starting at i ends (`\s+` is greedy, and may run
      across newlines). */
  function SpaceEnd(doc: string, i: nat): (e: nat)
    requires i <= |doc|
    ensures i <= e <= |doc| && (e == |doc| || !IsSpace(doc[e]))
    ensures forall k :: i <= k < e ==> IsSpace(doc[k])
    decreases |doc| - i
  {
    if i == |doc| || !IsSpace(doc[i]) then i else SpaceEnd(doc, i + 1)
  }

  /** The match of `^#include\s+"(.*)"$` (multi-line mode) that starts at s, if
      any: the marker at a line start, at least one whitespace character, a
      quote, and the rest of that line, which must end in a quote. The captured
      name is what lies between the first and the last quote. */
  function MatchAt(doc: string, s: nat): (r: Option<Directive>)
    requires s <= |doc|
    ensures r.Some? ==> r.value.start == s && s + |Marker| < r.value.end <= |doc|
    ensures r.Some? ==> StartsWith(doc[s..], Marker) && LineStart(doc, s)
    ensures r.Some? ==> (r.value.end == |doc| || doc[r.value.end] == '\n') && '\n' !in r.value.target
    ensures r.Some? ==> var b := SpaceEnd(doc, s + |Marker|);
              s + |Marker| < b && b + 1 < r.value.end && doc[b] == '"' && doc[r.value.end - 1] == '"' &&
              r.value.end == LineEnd(doc, b + 1) && r.value.target == doc[b + 1..r.value.end - 1]
  {
    if !LineStart(doc, s) || !StartsWith(doc[s..], Marker) then None
    else
      var a := s + |Marker|;
      var b := SpaceEnd(doc, a);
      if b == a || b == |doc| || doc[b] != '"' then None
      else
        var e := LineEnd(doc, b + 1);
        if e == b + 1 || doc[e - 1] != '"' then None
        else Some(Directive(s, e, doc[b + 1..e - 1]))
  }

  lemma {:induction false} LineEndAt(doc: string, i: nat, e: nat)
    requires i <= e <= |doc| && (e == |doc| || doc[e] == '\n')
    requires forall k :: i <= k < e ==> doc[k] != '\n'
    ensures LineEnd(doc, i) == e
    decreases e - i
  {
    if i < e {
      LineEndAt(doc, i + 1, e);
    }
  }

  /** The directive line for a file name, as a source author writes it. */
  function IncludeLine(name: string): string {
    Marker + " \"" + name + "\""
  }

  /** The three parts of a match, put together. */
  lemma MatchAtParts(doc: string, s: nat, b: nat, e: nat)
    requires s <= |doc| && LineStart(doc, s) && StartsWith(doc[s..], Marker)
    requires s + |Marker| < b < |doc| && SpaceEnd(doc, s + |Marker|) == b && doc[b] == '"'
    requires b + 1 < e <= |doc| && LineEnd(doc, b + 1) == e && doc[e - 1] == '"'
    ensures MatchAt(doc, s) == Some(Directive(s, e, doc[b + 1..e - 1]))
  {
  }

  /** The characters of a directive line copied into a document at s. */
  lemma IncludeLineChars(doc: string, s: nat, name: string)
    requires s + |IncludeLine(name)| <= |doc| && doc[s..s + |IncludeLine(name)|] == IncludeLine(name)
    ensures var b, e := s + |Marker| + 1, s + |IncludeLine(name)|;
            StartsWith(doc[s..], Marker) && doc[s + |Marker|] == ' ' && doc[b] == '"' &&
            b + 1 < e && doc[e - 1] == '"' && doc[b + 1..e - 1] == name
  {
    var line := IncludeLine(name);
    var b, e := s + |Marker| + 1, s + |line|;
    assert |line| == |name| + 11;
    assert forall k :: 0 <= k < |line| ==> doc[s + k] == line[k] by {
      forall k | 0 <= k < |line| ensures doc[s + k] == line[k] {
        assert doc[s..s + |line|][k] == doc[s + k];
      }
    }
    assert StartsWith(doc[s..], Marker) by {
      forall k | 0 <= k < |Marker| ensures doc[s..][k] == Marker[k] {
        assert line[k] == Marker[k];
      }
    }
    assert doc[s + |Marker|] == ' ' by { assert line[|Marker|] == ' '; }
    assert doc[b] == '"' by { assert line[|Marker| + 1] == '"'; }
    assert doc[e - 1] == '"' by { assert line[|line| - 1] == '"'; }
    assert doc[b + 1..e - 1] == name by {
      forall k | 0 <= k < |name| ensures doc[b + 1..e - 1][k] == name[k] {
        assert line[|Marker| + 2 + k] == name[k];
        assert doc[b + 1 + k] == line[|Marker| + 2 + k];
      }
    }
  }

  /** A directive line standing at a line start, up to the end of its line,
      matches there and names exactly its file. */
  lemma DirectiveAt(doc: string, s: nat, name: string)
    requires s <= |doc| && LineStart(doc, s)
    requires s + |IncludeLine(name)| <= |doc| && doc[s..s + |IncludeLine(name)|] == IncludeLine(name)
    requires s + |IncludeLine(name)| == |doc| || doc[s + |IncludeLine(name)|] == '\n'
    requires '\n' !in name
    ensures MatchAt(doc, s) == Some(Directive(s, s + |IncludeLine(name)|, name))
  {
    var b, e := s + |Marker| + 1, s + |IncludeLine(name)|;
    IncludeLineChars(doc, s, name);
    assert SpaceEnd(doc, s + |Marker|) == b by {
      assert SpaceEnd(doc, b) == b;
    }
    NameLineEnd(doc, b, e, name);
    MatchAtParts(doc, s, b, e);
  }

  /** A quoted name without newlines, followed by the end of a line, runs to
      that line end. */
  lemma NameLineEnd(doc: string, b: nat, e: nat, name: string)
    requires b + 1 < e <= |doc| && doc[b + 1..e - 1] == name && '\n' !in name
    requires doc[e - 1] == '"' && (e == |doc| || doc[e] == '\n')
    ensures LineEnd(doc, b + 1) == e
  {
    forall k | b + 1 <= k < e
      ensures doc[k] != '\n'
    {
      if k < e - 1 {
        assert doc[k] == doc[b + 1..e - 1][k - b - 1];
      }
    }
    LineEndAt(doc, b + 1, e);
  }

  /** A line written as `#include "name"` is a directive naming exactly that
      file, whatever lines stand around it. */
  lemma DirectiveLine(pre: string, name: string, post: string)
    requires pre == [] || pre[|pre| - 1] == '\n'
    requires '\n' !in name
    requires post == [] || post[0] == '\n'
    ensures MatchAt(pre + IncludeLine(name) + post, |pre|)
         == Some(Directive(|pre|, |pre| + |IncludeLine(name)|, name))
  {
    var doc := pre + IncludeLine(name) + post;
    var e := |pre| + |IncludeLine(name)|;
    assert doc[|pre|..e] == IncludeLine(name);
    assert e < |doc| ==> doc[e] == post[0];
    DirectiveAt(doc, |pre|, name);
  }

  /** `re.search` from position s: the first position at or after s where a
      directive matches. */
  function FindFrom(doc: string, s: nat): (r: Option<Directive>)
    requires s <= |doc|
    ensures r.Some? ==> s <= r.value.start <= |doc| && MatchAt(doc, r.value.start) == r
    decreases |doc| - s
  {
    if MatchAt(doc, s).Some? then MatchAt(doc, s)
    else if s == |doc| then None
    else FindFrom(doc, s + 1)
  }

  /** `pattern.search(file)`: the first directive of the document. */
  function FindDirective(doc: string): (r: Option<Directive>)
    ensures r.Some? ==> r.value.start < r.value.end <= |doc|
    ensures r.Some? ==> MatchAt(doc, r.value.start) == r
  {
    FindFrom(doc, 0)
  }

  /** No directive matches before the one found from s. */
  lemma {:induction false} FindFromLeftmost(doc: string, s: nat, k: nat)
    requires s <= k <= |doc|
    requires FindFrom(doc, s).None? || k < FindFrom(doc, s).value.start
    ensures MatchAt(doc, k).None?
    decreases k - s
  {
    if k > s {
      FindFromLeftmost(doc, s + 1, k);
    }
  }

  /** The directive found is the leftmost one; when none is found, no position
      matches. */
  lemma FindDirectiveLeftmost(doc: string, k: nat)
    requires k <= |doc|
    requires FindDirective(doc).None? || k < FindDirective(doc).value.start
    ensures MatchAt(doc, k).None?
  {
    FindFromLeftmost(doc, 0, k);
  }

  /** A document with a directive contains the marker. */
  lemma DirectiveHasMarker(doc: string)
    requires FindDirective(doc).Some?
    ensures Contains(doc, Marker)
  {
    ContainsAt(doc, Marker, FindDirective(doc).value.start);
  }

  /** `file.replace('#include', "")`, as the source does it: one left-to-right
      pass that deletes each occurrence it finds. A text without the marker is
      copied. */
  function RemoveMarker(s: string): (r: string)
    ensures |r| <= |s|
    ensures !Contains(s, Marker) ==> r == s
    decreases |s|
  {
    if s == [] then []
    else if StartsWith(s, Marker) then RemoveMarker(s[|Marker|..])
    else
      var r := [s[0]] + RemoveMarker(s[1..]);
      assert !Contains(s, Marker) ==> r == [s[0]] + s[1..];
      r
  }

  /** Each pass over a text that holds the marker makes it shorter. */
  lemma {:induction false} RemoveMarkerShrinks(s: string)
    requires Contains(s, Marker)
    ensures |RemoveMarker(s)| < |s|
    decreases |s|
  {
    if !StartsWith(s, Marker) {
      RemoveMarkerShrinks(s[1..]);
    }
  }

  /** The single pass can put the marker back together from the text around an
      occurrence it deleted. */
  lemma RemoveMarkerCanLeaveMarker(s: string)
    requires s == "#inc" + Marker + "lude"
    ensures RemoveMarker(s) == Marker
    ensures Contains(RemoveMarker(s), Marker)
  {
    var p, q := "#inc", "lude";
    forall i | 0 <= i < |p|
      ensures !StartsWith((p + Marker + q)[i..], Marker)
    {
      var k := if i == 0 then 4 else 0;
      assert (p + Marker + q)[i..][k] != Marker[k];
    }
    RemoveMarkerSplice(p, q);
    RemoveMarkerShort(q);
    assert p + q == Marker;
    ContainsAt(Marker, Marker, 0);
  }

  /** The pass deletes the first occurrence, keeps the text before it, and goes
      on after it. */
  lemma {:induction false} RemoveMarkerSplice(p: string, q: string)
    requires forall i :: 0 <= i < |p| ==> !StartsWith((p + Marker + q)[i..], Marker)
    ensures RemoveMarker(p + Marker + q) == p + RemoveMarker(q)
    decreases |p|
  {
    var s := p + Marker + q;
    if p == [] {
      assert s == Marker + q;
      RemoveMarkerDrops(q);
    } else {
      assert s[0..] == s;
      assert s[1..] == p[1..] + Marker + q;
      forall i | 0 <= i < |p[1..]|
        ensures !StartsWith((p[1..] + Marker + q)[i..], Marker)
      {
        assert (p[1..] + Marker + q)[i..] == s[i + 1..];
      }
      RemoveMarkerSplice(p[1..], q);
      assert [p[0]] + (p[1..] + RemoveMarker(q)) == p + RemoveMarker(q);
    }
  }

  /** An occurrence at the front is deleted. */
  lemma RemoveMarkerDrops(t: string)
    ensures RemoveMarker(Marker + t) == RemoveMarker(t)
  {
    assert (Marker + t)[|Marker|..] == t;
  }

  /** A text shorter than the marker is copied. */
  lemma {:induction false} RemoveMarkerShort(t: string)
    requires |t| < |Marker|
    ensures RemoveMarker(t) == t
    decreases |t|
  {
    if t != [] {
      RemoveMarkerShort(t[1..]);
      assert [t[0]] + t[1..] == t;
    }
  }

  /** A text without '#' does not contain the marker. */
  lemma {:induction false} NoHashNoMarker(s: string)
    requires '#' !in s
    ensures !Contains(s, Marker)
    decreases |s|
  {
    if s != [] {
      assert s[0] != Marker[0];
      assert forall c :: c in s[1..] ==> c in s;
      NoHashNoMarker(s[1..]);
    }
  }

  /** The marker removal the comment at blutil.py:213 calls for: delete until no
      occurrence is left. */
  function PurgeMarker(s: string): (r: string)
    ensures !Contains(r, Marker)
    ensures !Contains(s, Marker) ==> r == s
    ensures |r| <= |s|
    decreases |s|
  {
    if Contains(s, Marker) then
      RemoveMarkerShrinks(s);
      PurgeMarker(RemoveMarker(s))
    else s
  }

  datatype IncludeError =
    | MissingInclude(path: string)   // the resolved target does not exist
    | TooDeep                        // Python's RecursionError: the interpreter's recursion limit was reached

  /** How the expanded text is cleaned of the marker: `SinglePass` is the
      source's one `replace`, `UntilGone` the removal its comment asks for. */
  datatype Cleanup = SinglePass | UntilGone

  function Clean(how: Cleanup, s: string): (r: string)
    ensures |r| <= |s| && (!Contains(s, Marker) ==> r == s)
    ensures how == UntilGone ==> !Contains(r, Marker)
  {
    match how
    case SinglePass => RemoveMarker(s)
    case UntilGone => PurgeMarker(s)
  }

  /** The file system as `do_include` sees it: file contents by absolute path,
      the `abspath(join(dir, name))` resolution, and `dirname`. */
  datatype Disk = Disk(files: map<string, string>, resolve: (string, string) -> string, parent: string -> string)

  /** The document with the directive replaced by the included text between two
      newlines. */
  function Splice(doc: string, m: Directive, inner: string): string
    requires m.start <= m.end <= |doc|
  {
    doc[..m.start] + "\n" + inner + "\n" + doc[m.end..]
  }

  /** The splice keeps the text before and after the directive line and puts the
      included text, framed by newlines, in its place. */
  lemma SpliceParts(doc: string, m: Directive, inner: string)
    requires m.start <= m.end <= |doc|
    ensures var r := Splice(doc, m, inner);
            |r| == |doc| - (m.end - m.start) + |inner| + 2 &&
            r[..m.start] == doc[..m.start] && r[|r| - (|doc| - m.end)..] == doc[m.end..] &&
            r[m.start..m.start + |inner| + 2] == "\n" + inner + "\n"
  {
  }

  /** `do_include(file, dirname)`, with `SinglePass` exactly the source; `depth`
      is the recursion the interpreter still allows. A document without a
      directive is returned as it is. */
  function Expand(how: Cleanup, doc: string, dir: string, disk: Disk, depth: nat): Result<string, IncludeError>
    decreases depth, 2
  {
    match FindDirective(doc)
    case None => Success(doc)
    case Some(m) => if depth == 0 then Failure(TooDeep) else ExpandAt(how, doc, m, dir, disk, depth)
  }

  /** The expansion of the document's first directive m: the named file is
      expanded relative to its own directory and spliced in, and the result is
      rescanned. */
  function ExpandAt(how: Cleanup, doc: string, m: Directive, dir: string, disk: Disk, depth: nat): Result<string, IncludeError>
    requires 0 < depth && m.start <= m.end <= |doc|
    decreases depth, 1
  {
    var path := disk.resolve(dir, m.target);
    if path !in disk.files then Failure(MissingInclude(path))
    else
      match Expand(how, disk.files[path], disk.parent(path), disk, depth - 1)
      case Failure(e) => Failure(e)
      case Success(inner) => Rescan(how, Splice(doc, m, inner), dir, disk, depth)
  }

  /** The whole spliced document is expanded again and the marker is removed. */
  function Rescan(how: Cleanup, spliced: string, dir: string, disk: Disk, depth: nat): Result<string, IncludeError>
    requires 0 < depth
    decreases depth, 0
  {
    match Expand(how, spliced, dir, disk, depth - 1)
    case Failure(e) => Failure(e)
    case Success(outer) => Success(Clean(how, outer))
  }

  /** Without a directive, the document comes back byte for byte, marker and all. */
  lemma ExpandWithoutDirective(how: Cleanup, doc: string, dir: string, disk: Disk, depth: nat)
    requires FindDirective(doc).None?
    ensures Expand(how, doc, dir, disk, depth) == Success(doc)
  {
  }

  /** A first directive naming a file that does not exist is an error that names
      the resolved path. */
  lemma ExpandMissingTarget(how: Cleanup, doc: string, dir: string, disk: Disk, depth: nat)
    requires depth > 0 && FindDirective(doc).Some?
    requires disk.resolve(dir, FindDirective(doc).value.target) !in disk.files
    ensures Expand(how, doc, dir, disk, depth) ==
              Failure(MissingInclude(disk.resolve(dir, FindDirective(doc).value.target)))
  {
  }

  /** Once the first directive's file has expanded to `inner`, the result is
      that of rescanning the document with the directive line replaced by
      `inner` between two newlines. */
  lemma ExpandSplices(how: Cleanup, doc: string, dir: string, disk: Disk, depth: nat, inner: string)
    requires depth > 0 && FindDirective(doc).Some?
    requires var path := disk.resolve(dir, FindDirective(doc).value.target);
             path in disk.files && Expand(how, disk.files[path], disk.parent(path), disk, depth - 1) == Success(inner)
    ensures var m := FindDirective(doc).value;
            Expand(how, doc, dir, disk, depth) == Rescan(how, doc[..m.start] + "\n" + inner + "\n" + doc[m.end..], dir, disk, depth)
  {
  }

  /** With the marker removed until none is left, an expanded document has no
      directive left, and once a directive was expanded, no marker at all. */
  lemma ExpandedIsFinal(doc: string, dir: string, disk: Disk, depth: nat)
    requires Expand(UntilGone, doc, dir, disk, depth).Success?
    ensures FindDirective(Expand(UntilGone, doc, dir, disk, depth).value).None?
    ensures FindDirective(doc).Some? ==> !Contains(Expand(UntilGone, doc, dir, disk, depth).value, Marker)
  {
    var r := Expand(UntilGone, doc, dir, disk, depth).value;
    if FindDirective(doc).Some? {
      var m := FindDirective(doc).value;
      var path := disk.resolve(dir, m.target);
      assert Expand(UntilGone, doc, dir, disk, depth) == ExpandAt(UntilGone, doc, m, dir, disk, depth);
      var inner := Expand(UntilGone, disk.files[path], disk.parent(path), disk, depth - 1).value;
      var outer := Expand(UntilGone, Splice(doc, m, inner), dir, disk, depth - 1).value;
      assert r == Clean(UntilGone, outer);
    }
    if FindDirective(r).Some? {
      DirectiveHasMarker(r);
    }
  }

  /** No position of the text after s starts a match: the search finds nothing. */
  lemma {:induction false} FindFromNone(doc: string, s: nat)
    requires s <= |doc|
    requires forall k :: s <= k <= |doc| ==> MatchAt(doc, k).None?
    ensures FindFrom(doc, s).None?
    decreases |doc| - s
  {
    if s < |doc| {
      FindFromNone(doc, s + 1);
    }
  }

  /** A text where no line starts with the marker has no directive. */
  lemma NoLineMarker(doc: string)
    requires forall k :: 0 <= k <= |doc| && LineStart(doc, k) ==> !StartsWith(doc[k..], Marker)
    ensures FindDirective(doc).None?
  {
    FindFromNone(doc, 0);
  }

  /** A single line that does not start with the marker, alone or between two
      newlines, has no directive. */
  lemma OneLineNoDirective(c: string)
    requires '\n' !in c && |c| >= |Marker| && c[..|Marker|] != Marker
    ensures FindDirective(c).None?
    ensures FindDirective("\n" + c + "\n").None?
  {
    forall k | 0 < k <= |c| ensures !LineStart(c, k) {
      assert c[k - 1] in c;
    }
    assert !StartsWith(c, Marker);
    NoLineMarker(c);
    var d := "\n" + c + "\n";
    forall k | 1 < k < |d| ensures !LineStart(d, k) {
      assert d[k - 1] == c[k - 2];
      assert c[k - 2] in c;
    }
    assert d[1..][..|Marker|] == c[..|Marker|];
    assert !StartsWith(d[1..], Marker);
    assert !StartsWith(d[0..], Marker) by { assert d[0..][0] != Marker[0]; }
    NoLineMarker(d);
  }

  /** The included text that, once spliced in, the single pass turns into a
      live directive. */
  const Leaky: string := "#inc" + Marker + "lude \"\""

  /** A document that is one directive line has that directive first. */
  lemma SoleDirective(name: string)
    requires '\n' !in name
    ensures FindDirective(IncludeLine(name)) == Some(Directive(0, |IncludeLine(name)|, name))
  {
    DirectiveLine([], name, []);
    assert [] + IncludeLine(name) + [] == IncludeLine(name);
  }

  /** A directive line between two newlines is found. */
  lemma FramedDirective(name: string)
    requires '\n' !in name
    ensures FindDirective("\n" + IncludeLine(name) + "\n").Some?
  {
    var line := "\n" + IncludeLine(name) + "\n";
    DirectiveLine("\n", name, "\n");
    if FindDirective(line).None? {
      FindDirectiveLeftmost(line, 1);
      assert false;
    }
  }

  /** A document that is exactly one directive, naming an existing file that
      holds no directive, even once framed by newlines, expands to that file
      between newlines, cleaned. */
  lemma ExpandSole(how: Cleanup, name: string, dir: string, disk: Disk, depth: nat)
    requires depth > 0 && '\n' !in name
    requires disk.resolve(dir, name) in disk.files
    requires var c := disk.files[disk.resolve(dir, name)];
             FindDirective(c).None? && FindDirective("\n" + c + "\n").None?
    ensures var c := disk.files[disk.resolve(dir, name)];
            Expand(how, IncludeLine(name), dir, disk, depth) == Success(Clean(how, "\n" + c + "\n"))
  {
    var doc := IncludeLine(name);
    var path := disk.resolve(dir, name);
    var c := disk.files[path];
    SoleDirective(name);
    var m := Directive(0, |doc|, name);
    assert Expand(how, doc, dir, disk, depth) == ExpandAt(how, doc, m, dir, disk, depth);
    assert Expand(how, c, disk.parent(path), disk, depth - 1) == Success(c);
    assert Splice(doc, m, c) == "\n" + c + "\n";
    assert ExpandAt(how, doc, m, dir, disk, depth) == Rescan(how, "\n" + c + "\n", dir, disk, depth);
    assert Expand(how, "\n" + c + "\n", dir, disk, depth - 1) == Success("\n" + c + "\n");
  }

  /** Deleting an occurrence whose tail has no '#' joins what surrounds it. */
  lemma RemoveMarkerJoin(p: string, q: string)
    requires forall i :: 0 <= i < |p| ==> !StartsWith((p + Marker + q)[i..], Marker)
    requires '#' !in q
    ensures RemoveMarker(p + Marker + q) == p + q
  {
    RemoveMarkerSplice(p, q);
    NoHashNoMarker(q);
  }

  /** No occurrence of the marker starts in the first five characters of
      the spliced file below. */
  lemma LeakyHead(s: string)
    requires s == "\n#inc" + Marker + "lude \"\"\n"
    ensures forall i :: 0 <= i < 5 ==> !StartsWith(s[i..], Marker)
  {
    forall i | 0 <= i < 5
      ensures !StartsWith(s[i..], Marker)
    {
      if i == 1 {
        assert s[i..][4] == '#';
      } else {
        assert s[i..][0] != Marker[0];
      }
    }
  }

  /** What the single pass makes of the file below once it is spliced in. */
  lemma LeakyPass()
    ensures RemoveMarker("\n" + Leaky + "\n") == "\n" + IncludeLine("") + "\n"
  {
    var p, q := "\n#inc", "lude \"\"\n";
    var s := p + Marker + q;
    assert "\n" + Leaky + "\n" == s;
    LeakyHead(s);
    RemoveMarkerJoin(p, q);
    assert p + q == "\n" + IncludeLine("") + "\n";
  }

  /** The source's single pass can hand the compiler a directive: a document
      that is one directive naming a file that holds the text above expands
      to the line `#include ""`, which the search matches; removing the marker
      until none is left leaves no directive. */
  lemma ExpandCanLeaveDirective(name: string, dir: string, disk: Disk, depth: nat)
    requires depth > 0 && '\n' !in name
    requires disk.resolve(dir, name) in disk.files && disk.files[disk.resolve(dir, name)] == Leaky
    ensures Expand(SinglePass, IncludeLine(name), dir, disk, depth) == Success("\n" + IncludeLine("") + "\n")
    ensures FindDirective("\n" + IncludeLine("") + "\n").Some?
    ensures Expand(UntilGone, IncludeLine(name), dir, disk, depth).Success?
    ensures FindDirective(Expand(UntilGone, IncludeLine(name), dir, disk, depth).value).None?
  {
    assert Leaky[..|Marker|] != Marker by { assert Leaky[4] != Marker[4]; }
    OneLineNoDirective(Leaky);
    ExpandSole(SinglePass, name, dir, disk, depth);
    ExpandSole(UntilGone, name, dir, disk, depth);
    LeakyPass();
    FramedDirective("");
    ExpandedIsFinal(IncludeLine(name), dir, disk, depth);
  }

  /** The recursion limit only decides whether an expansion finishes, never what
      it yields: any outcome other than running out of depth stays the same with
      more depth. */
  lemma {:induction false} ExpandDepthMonotone(how: Cleanup, doc: string, dir: string, disk: Disk, depth: nat, more: nat)
    requires depth <= more
    requires Expand(how, doc, dir, disk, depth) != Failure(TooDeep)
    ensures Expand(how, doc, dir, disk, more) == Expand(how, doc, dir, disk, depth)
    decreases depth, 2
  {
    if depth > 0 && FindDirective(doc).Some? {
      ExpandAtDepthMonotone(how, doc, FindDirective(doc).value, dir, disk, depth, more);
    }
  }

  lemma {:induction false} ExpandAtDepthMonotone(how: Cleanup, doc: string, m: Directive, dir: string, disk: Disk, depth: nat, more: nat)
    requires 0 < depth <= more && m.start <= m.end <= |doc|
    requires ExpandAt(how, doc, m, dir, disk, depth) != Failure(TooDeep)
    ensures ExpandAt(how, doc, m, dir, disk, more) == ExpandAt(how, doc, m, dir, disk, depth)
    decreases depth, 1
  {
    var path := disk.resolve(dir, m.target);
    if path in disk.files {
      var file, parent := disk.files[path], disk.parent(path);
      var first := Expand(how, file, parent, disk, depth - 1);
      assert first != Failure(TooDeep) by {
        if first.Failure? {
          assert ExpandAt(how, doc, m, dir, disk, depth) == first;
        }
      }
      ExpandDepthMonotone(how, file, parent, disk, depth - 1, more - 1);
      if first.Success? {
        RescanDepthMonotone(how, Splice(doc, m, first.value), dir, disk, depth, more);
      }
    }
  }

  lemma {:induction false} RescanDepthMonotone(how: Cleanup, spliced: string, dir: string, disk: Disk, depth: nat, more: nat)
    requires 0 < depth <= more
    requires Rescan(how, spliced, dir, disk, depth) != Failure(TooDeep)
    ensures Rescan(how, spliced, dir, disk, more) == Rescan(how, spliced, dir, disk, depth)
    decreases depth, 0
  {
    ExpandDepthMonotone(how, spliced, dir, disk, depth - 1, more - 1);
  }
}
