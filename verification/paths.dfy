/** Path handling of blutil.py on a POSIX host: `os.path.splitext`, `to_uwc`,
    the upload path rule and `get_devicename`, the name a file gets on the
    module's file system. */
module Paths {
  import opened Text

  /** The characters `get_devicename` deletes. */
  const Reserved: set<char> := {':', '*', '?', '"', '<', '>', '|'}

  /** The longest name the module's file system accepts. */
  const MaxNameLength: nat := 24

  /** Some character of `p[lo..hi]` is not a dot. */
  predicate NonDotBetween(p: string, lo: int, hi: int)
    requires 0 <= lo <= hi <= |p|
    decreases hi - lo
  {
    lo < hi && (p[lo] != '.' || NonDotBetween(p, lo + 1, hi))
  }

  /** Some character of `s` is not a dot. */
  predicate HasNonDot(s: string) {
    NonDotBetween(s, 0, |s|)
  }

  lemma {:induction false} NonDotBetweenMeans(p: string, lo: int, hi: int)
    requires 0 <= lo <= hi <= |p|
    ensures NonDotBetween(p, lo, hi) <==> exists k :: lo <= k < hi && p[k] != '.'
    decreases hi - lo
  {
    if lo < hi {
      NonDotBetweenMeans(p, lo + 1, hi);
    }
  }

  /** The predicate only looks at the characters in the range. */
  lemma {:induction false} NonDotBetweenShift(p: string, lo: int, hi: int, q: string, lo2: int, hi2: int)
    requires 0 <= lo <= hi <= |p| && 0 <= lo2 <= hi2 <= |q| && hi2 - lo2 == hi - lo
    requires forall k :: lo <= k < hi ==> p[k] == q[k - lo + lo2]
    requires NonDotBetween(p, lo, hi)
    ensures NonDotBetween(q, lo2, hi2)
    decreases hi - lo
  {
    if p[lo] == '.' {
      NonDotBetweenShift(p, lo + 1, hi, q, lo2 + 1, hi2);
    }
  }

  lemma NonDotSlice(p: string, lo: int, hi: int)
    requires 0 <= lo <= hi <= |p| && NonDotBetween(p, lo, hi)
    ensures HasNonDot(p[lo..hi])
  {
    NonDotBetweenShift(p, lo, hi, p[lo..hi], 0, hi - lo);
  }

  lemma SliceNonDot(p: string, lo: int, hi: int)
    requires 0 <= lo <= hi <= |p| && HasNonDot(p[lo..hi])
    ensures NonDotBetween(p, lo, hi)
  {
    NonDotBetweenShift(p[lo..hi], 0, hi - lo, p, lo, hi);
  }

  lemma SuffixNonDot(p: string, lo: int)
    requires 0 <= lo <= |p| && HasNonDot(p[lo..])
    ensures NonDotBetween(p, lo, |p|)
  {
    NonDotBetweenShift(p[lo..], 0, |p| - lo, p, lo, |p|);
  }

  lemma NonDotAppend(p: string, lo: int, hi: int, t: string)
    requires 0 <= lo <= hi <= |p| && NonDotBetween(p, lo, hi)
    ensures NonDotBetween(p + t, lo, hi)
  {
    NonDotBetweenShift(p, lo, hi, p + t, lo, hi);
  }

  /** `os.path.basename`: the text after the last '/', all of it, or the whole
      path when it has no '/'. */
  function BaseName(p: string): (b: string)
    ensures '/' !in b && EndsWith(p, b)
    ensures |b| < |p| ==> p[|p| - |b| - 1] == '/'
    ensures '/' !in p ==> b == p
  {
    p[RFind(p, '/') + 1..]
  }

  /** The text from the last '.' of a path on holds no other '.' and no '/'
      when no '/' comes after that '.'. */
  lemma ExtensionParts(p: string, dot: int)
    requires 0 <= dot < |p| && p[dot] == '.'
    requires forall k :: dot < k < |p| ==> p[k] != '.' && p[k] != '/'
    ensures p[..dot] + p[dot..] == p
    ensures p[dot..][0] == '.' && '.' !in p[dot..][1..] && '/' !in p[dot..]
  {
    var ext := p[dot..];
    assert p[..dot] + ext == p;
    assert forall k | 0 <= k < |ext[1..]| :: ext[1..][k] == p[dot + 1 + k];
    assert forall k | 0 <= k < |ext| :: ext[k] == p[dot + k];
  }

  /** `os.path.splitext`: the extension starts at the last '.' of the base name,
      provided something other than dots precedes it in the base name. */
  function SplitExt(p: string): (parts: (string, string))
    ensures parts.0 + parts.1 == p
    ensures parts.1 == [] || (parts.1[0] == '.' && '.' !in parts.1[1..] && '/' !in parts.1)
  {
    var sep := RFind(p, '/');
    var dot := RFind(p, '.');
    if dot > sep && NonDotBetween(p, sep + 1, dot) then
      ExtensionParts(p, dot);
      (p[..dot], p[dot..])
    else (p, [])
  }

  /** `to_uwc`: the path with its extension replaced by ".uwc" (or ".uwc" added). */
  function ToUwc(p: string): (r: string)
    ensures EndsWith(r, ".uwc") && StartsWith(p, r[..|r| - 4])
  {
    var r := SplitExt(p).0 + ".uwc";
    assert r[..|r| - 4] == SplitExt(p).0;
    r
  }

  /** The file `upload` sends (blutil.py:139-141): a ".uwc" path as it is, any
      other path with its extension replaced. It is always `to_uwc` of the path. */
  function UploadPath(p: string): (r: string)
    ensures r == ToUwc(p)
  {
    var parts := SplitExt(p);
    if parts.1 != ".uwc" then parts.0 + ".uwc" else p
  }

  /** `filename.split('.')[0]`: the text before the first '.'. */
  function UpToDot(s: string): (r: string)
    ensures '.' !in r && StartsWith(s, r)
    ensures |r| < |s| ==> s[|r|] == '.'
  {
    if s == [] || s[0] == '.' then [] else [s[0]] + UpToDot(s[1..])
  }

  /** `re.sub(r'[:*?"<>|]', "", s)`. */
  function RemoveReserved(s: string): (r: string)
    ensures |r| <= |s|
    ensures forall i :: 0 <= i < |r| ==> r[i] in s && r[i] !in Reserved
    ensures (forall i :: 0 <= i < |s| ==> s[i] !in Reserved) ==> r == s
  {
    if s == [] then []
    else
      var tail := RemoveReserved(s[1..]);
      assert forall c :: c in s[1..] ==> c in s;
      if s[0] in Reserved then tail else [s[0]] + tail
  }

  /** The substitution works character by character: it keeps every character
      that is not reserved, in order. */
  lemma {:induction false} RemoveReservedAppend(a: string, b: string)
    ensures RemoveReserved(a + b) == RemoveReserved(a) + RemoveReserved(b)
    decreases |a|
  {
    if a != [] {
      assert (a + b)[1..] == a[1..] + b;
      RemoveReservedAppend(a[1..], b);
    } else {
      assert a + b == b;
    }
  }

  /** A reserved character is dropped, any other one is kept. */
  lemma RemoveReservedChar(c: char)
    ensures RemoveReserved([c]) == if c in Reserved then [] else [c]
  {
    assert [c][1..] == [];
  }

  /** `get_devicename`: base name, up to its first '.', reserved characters
      removed, at most 24 characters. */
  function DeviceName(p: string): (r: string)
    ensures |r| <= MaxNameLength
    ensures forall i :: 0 <= i < |r| ==> r[i] !in Reserved && r[i] != '.' && r[i] != '/'
  {
    var s := RemoveReserved(UpToDot(BaseName(p)));
    s[..Min(MaxNameLength, |s|)]
  }

  /** A device name is its own device name. */
  lemma DeviceNameIdempotent(p: string)
    ensures DeviceName(DeviceName(p)) == DeviceName(p)
  {
    var q := DeviceName(p);
    assert RFind(q, '/') == -1;
    assert BaseName(q) == q;
    assert UpToDot(q) == q;
    assert RemoveReserved(q) == q;
  }

  /** The last component of a path is what follows its last '/'. */
  lemma BaseNameAfterSlash(dir: string, t: string)
    requires '/' !in t
    ensures BaseName(dir + "/" + t) == t
  {
    RFindAt(dir + "/", '/', |dir|);
    assert BaseName(dir + "/") == [];
    BaseNameAppend(dir + "/", t);
  }

  /** A name up to its first '.', when it has no '.' and no reserved character
      and is followed by nothing or an extension, is the name. */
  lemma CleanStem(name: string, ext: string)
    requires forall i :: 0 <= i < |name| ==> name[i] !in Reserved && name[i] != '.'
    requires ext == [] || ext[0] == '.'
    ensures RemoveReserved(UpToDot(name + ext)) == name
  {
    var u := UpToDot(name);
    assert u == name by {
      assert name[..|u|] == u;
    }
    if ext != [] {
      UpToDotAppend(name, ext);
    } else {
      assert name + ext == name;
    }
  }

  /** A file whose name is clean and short enough is stored under that name,
      whatever its directory and its extension. */
  lemma DeviceNameOfFile(dir: string, name: string, ext: string)
    requires |name| <= MaxNameLength
    requires forall i :: 0 <= i < |name| ==> name[i] !in Reserved && name[i] != '.' && name[i] != '/'
    requires ext == [] || (ext[0] == '.' && '/' !in ext)
    ensures DeviceName(dir + "/" + name + ext) == name
  {
    var p := dir + "/" + name + ext;
    NoSlashIn(name, ext);
    BaseNameAfterSlash(dir, name + ext);
    assert BaseName(p) == name + ext by {
      assert p == dir + "/" + (name + ext);
    }
    CleanStem(name, ext);
  }

  /** A clean name longer than 24 characters is cut to its first 24. */
  lemma DeviceNameOfLongFile(dir: string, name: string, ext: string)
    requires |name| > MaxNameLength
    requires forall i :: 0 <= i < |name| ==> name[i] !in Reserved && name[i] != '.' && name[i] != '/'
    requires ext == [] || (ext[0] == '.' && '/' !in ext)
    ensures DeviceName(dir + "/" + name + ext) == name[..MaxNameLength]
  {
    var p := dir + "/" + name + ext;
    NoSlashIn(name, ext);
    BaseNameAfterSlash(dir, name + ext);
    assert BaseName(p) == name + ext by {
      assert p == dir + "/" + (name + ext);
    }
    CleanStem(name, ext);
  }

  lemma NoSlashIn(name: string, ext: string)
    requires forall i :: 0 <= i < |name| ==> name[i] != '/'
    requires '/' !in ext
    ensures '/' !in name + ext
  {
    forall i | 0 <= i < |name + ext| ensures (name + ext)[i] != '/' {
      if i >= |name| { assert (name + ext)[i] == ext[i - |name|]; }
    }
  }

  lemma {:induction false} UpToDotAppend(s: string, t: string)
    requires '.' in s || (t != [] && t[0] == '.')
    ensures UpToDot(s + t) == UpToDot(s)
    decreases |s|
  {
    if s != [] && s[0] != '.' {
      assert (s + t)[1..] == s[1..] + t;
      UpToDotAppend(s[1..], t);
    }
  }

  lemma RFindAt(s: string, c: char, r: int)
    requires -1 <= r < |s|
    requires r >= 0 ==> s[r] == c
    requires forall k :: r < k < |s| ==> s[k] != c
    ensures RFind(s, c) == r
  {
  }

  lemma BaseNameAppend(s: string, t: string)
    requires '/' !in t
    ensures BaseName(s + t) == BaseName(s) + t
  {
    var r := RFind(s, '/');
    RFindAt(s + t, '/', r);
    assert (s + t)[r + 1..] == s[r + 1..] + t;
  }

  /** Replacing an extension (or nothing) by ".uwc" keeps the base name up to its
      first '.'. */
  lemma StemOfCut(root: string, ext: string)
    requires ext == [] || (ext[0] == '.' && '/' !in ext)
    ensures UpToDot(BaseName(root + ".uwc")) == UpToDot(BaseName(root + ext))
  {
    BaseNameAppend(root, ".uwc");
    UpToDotAppend(BaseName(root), ".uwc");
    if ext == [] {
      assert root + ext == root;
    } else {
      BaseNameAppend(root, ext);
      UpToDotAppend(BaseName(root), ext);
    }
  }

  /** Where splitext cuts a path that has an extension. */
  lemma SplitExtAt(p: string)
    requires SplitExt(p).1 != []
    ensures var sep, dot := RFind(p, '/'), RFind(p, '.');
            sep < dot && NonDotBetween(p, sep + 1, dot) && SplitExt(p) == (p[..dot], p[dot..])
  {
  }

  /** A path whose last '.' follows its last '/' and something other than
      dots is split at that '.'. */
  lemma SplitExtCuts(p: string, sep: int, dot: int)
    requires RFind(p, '/') == sep && RFind(p, '.') == dot && sep < dot
    requires NonDotBetween(p, sep + 1, dot)
    ensures SplitExt(p) == (p[..dot], p[dot..])
  {
  }

  /** `run` looks the program up under the name of the path it is given, and
      `upload` stores it under the name of `to_uwc` of that path: the two agree. */
  lemma DeviceNameOfUwc(p: string)
    ensures DeviceName(ToUwc(p)) == DeviceName(p)
  {
    var parts := SplitExt(p);
    StemOfCut(parts.0, parts.1);
    assert ToUwc(p) == parts.0 + ".uwc";
  }

  /** Where the last '/' and the last '.' of a path with an extension appended are. */
  lemma RFindAppendExt(root: string, ext: string)
    requires ext != [] && ext[0] == '.' && '.' !in ext[1..] && '/' !in ext
    ensures RFind(root + ext, '/') == RFind(root, '/') && RFind(root + ext, '.') == |root|
  {
    var q := root + ext;
    RFindAt(q, '/', RFind(root, '/'));
    assert forall k :: |root| < k < |q| ==> q[k] == ext[1..][k - |root| - 1];
    RFindAt(q, '.', |root|);
  }

  /** An extension appended to a base name that is not all dots is what
      splitext cuts off again. */
  lemma SplitExtAppend(root: string, ext: string)
    requires HasNonDot(BaseName(root))
    requires ext != [] && ext[0] == '.' && '.' !in ext[1..] && '/' !in ext
    ensures SplitExt(root + ext) == (root, ext)
  {
    var rsep := RFind(root, '/');
    RFindAppendExt(root, ext);
    SuffixNonDot(root, rsep + 1);
    NonDotAppend(root, rsep + 1, |root|, ext);
    SplitExtCuts(root + ext, rsep, |root|);
    assert (root + ext)[..|root|] == root && (root + ext)[|root|..] == ext;
  }

  lemma SplitExtUwc(root: string)
    requires HasNonDot(BaseName(root))
    ensures SplitExt(root + ".uwc") == (root, ".uwc")
  {
    UwcIsExtension();
    SplitExtAppend(root, ".uwc");
  }

  lemma UwcIsExtension()
    ensures var ext := ".uwc"; ext != [] && ext[0] == '.' && '.' !in ext[1..] && '/' !in ext
  {
    assert ".uwc"[1..] == "uwc";
  }

  /** Cutting the extension leaves something other than dots in the base name. */
  lemma RootHasNonDot(p: string)
    requires HasNonDot(BaseName(p))
    ensures HasNonDot(BaseName(SplitExt(p).0))
  {
    if SplitExt(p).1 != [] {
      CutRootHasNonDot(p);
    }
  }

  /** When there is an extension, what precedes it in the base name is not all dots. */
  lemma CutRootHasNonDot(p: string)
    requires SplitExt(p).1 != []
    ensures HasNonDot(BaseName(SplitExt(p).0))
  {
    SplitExtAt(p);
    var sep, dot := RFind(p, '/'), RFind(p, '.');
    var root := p[..dot];
    RFindAt(root, '/', sep);
    NonDotSlice(p, sep + 1, dot);
    assert BaseName(root) == p[sep + 1..dot];
  }

  /** Replacing the extension twice is replacing it once, when the base name is
      not empty or all dots. */
  lemma ToUwcIdempotent(p: string)
    requires HasNonDot(BaseName(p))
    ensures ToUwc(ToUwc(p)) == ToUwc(p)
  {
    var root := SplitExt(p).0;
    RootHasNonDot(p);
    SplitExtUwc(root);
    assert ToUwc(p) == root + ".uwc";
  }
}
