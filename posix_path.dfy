/** `os.path.splitext` for POSIX paths (`posixpath.splitext`), as the normaliser and the storage use it. */
module PosixPath {

  /** `s.rfind(c)`: the last index holding `c`, or -1. */
  function RFind(s: string, c: char): (i: int)
    ensures -1 <= i < |s|
    ensures i >= 0 ==> s[i] == c
    ensures forall j :: i < j < |s| ==> s[j] != c
  {
    if s == [] then -1
    else if s[|s| - 1] == c then |s| - 1
    else RFind(s[..|s| - 1], c)
  }

  predicate HasNonDot(s: string) {
    exists i :: 0 <= i < |s| && s[i] != '.'
  }

  /** A dot followed by no further dot and no `/`. */
  predicate IsExtension(ext: string) {
    && |ext| > 0 && ext[0] == '.'
    && (forall k :: 1 <= k < |ext| ==> ext[k] != '.')
    && (forall k :: 0 <= k < |ext| ==> ext[k] != '/')
  }

  /** The last path component: everything after the last `/`. */
  function Basename(p: string): string {
    p[RFind(p, '/') + 1..]
  }

  /**
   * `os.path.splitext(p)`: the extension starts at the last dot of the last
   * component, unless everything before that dot in the component is dots
   * (so `.bashrc` has no extension).
   */
  function SplitExt(p: string): (parts: (string, string))
    ensures parts.0 + parts.1 == p
    ensures parts.1 == "" || IsExtension(parts.1)
    ensures parts.1 != "" ==> HasNonDot(Basename(parts.0))
  {
    var sepIndex := RFind(p, '/');
    var dotIndex := RFind(p, '.');
    if dotIndex > sepIndex && HasNonDot(p[sepIndex + 1..dotIndex]) then
      SplitAtDot(p, sepIndex, dotIndex);
      RootKeepsNonDot(p, sepIndex, dotIndex);
      (p[..dotIndex], p[dotIndex..])
    else
      assert p + "" == p;
      (p, "")
  }

  /** Cutting a string in two and gluing the halves back gives it again. */
  lemma PrefixSuffix(p: string, n: nat)
    requires n <= |p|
    ensures p[..n] + p[n..] == p
  {
  }

  /** `RFind`'s contract pins its result down: only the last occurrence (or -1) satisfies it. */
  lemma RFindUnique(s: string, c: char, i: int)
    requires -1 <= i < |s|
    requires i >= 0 ==> s[i] == c
    requires forall j :: i < j < |s| ==> s[j] != c
    ensures RFind(s, c) == i
  {
  }

  /** Splitting at the last dot after the last `/` gives back the path and leaves an extension free of further dots and slashes. */
  lemma SplitAtDot(p: string, sepIndex: int, dotIndex: int)
    requires -1 <= sepIndex < dotIndex < |p|
    requires sepIndex >= 0 ==> p[sepIndex] == '/'
    requires forall j :: sepIndex < j < |p| ==> p[j] != '/'
    requires p[dotIndex] == '.'
    requires forall j :: dotIndex < j < |p| ==> p[j] != '.'
    ensures p[..dotIndex] + p[dotIndex..] == p
    ensures IsExtension(p[dotIndex..])
  {
    PrefixSuffix(p, dotIndex);
    ExtensionAfterLastDot(p, sepIndex, dotIndex);
  }

  /** The root's last component is the part between the last `/` and the dot, so it keeps a non-dot character. */
  lemma RootKeepsNonDot(p: string, sepIndex: int, dotIndex: int)
    requires -1 <= sepIndex < dotIndex <= |p|
    requires sepIndex >= 0 ==> p[sepIndex] == '/'
    requires forall j :: sepIndex < j < |p| ==> p[j] != '/'
    requires HasNonDot(p[sepIndex + 1..dotIndex])
    ensures HasNonDot(Basename(p[..dotIndex]))
  {
    BasenameOfPrefix(p, sepIndex, dotIndex);
    HasNonDotEqual(p[sepIndex + 1..dotIndex], Basename(p[..dotIndex]));
  }

  lemma HasNonDotEqual(a: string, b: string)
    requires a == b && HasNonDot(a)
    ensures HasNonDot(b)
  {
  }

  /** What follows the last dot after the last `/` holds no further dot and no `/`. */
  lemma ExtensionAfterLastDot(p: string, sepIndex: int, dotIndex: int)
    requires -1 <= sepIndex < dotIndex < |p|
    requires forall j :: sepIndex < j < |p| ==> p[j] != '/'
    requires p[dotIndex] == '.'
    requires forall j :: dotIndex < j < |p| ==> p[j] != '.'
    ensures IsExtension(p[dotIndex..])
  {
    var ext := p[dotIndex..];
    forall k | 0 <= k < |ext| ensures ext[k] == p[dotIndex + k] {
    }
  }

  /** Cutting before a dot that follows the last `/` keeps that `/` as the last one. */
  lemma BasenameOfPrefix(p: string, sepIndex: int, dotIndex: int)
    requires -1 <= sepIndex < dotIndex <= |p|
    requires sepIndex >= 0 ==> p[sepIndex] == '/'
    requires forall j :: sepIndex < j < |p| ==> p[j] != '/'
    ensures Basename(p[..dotIndex]) == p[sepIndex + 1..dotIndex]
  {
    RFindUnique(p[..dotIndex], '/', sepIndex);
  }

  /**
   * Appending `"." + ext` to a root whose last component has a non-dot
   * character makes `ext` exactly the extension `splitext` finds again.
   */
  lemma SplitExtOfAppended(root: string, ext: string)
    requires HasNonDot(Basename(root))
    requires '.' !in ext && '/' !in ext
    ensures SplitExt(root + "." + ext) == (root, "." + ext)
  {
    var tail := "." + ext;
    var p := root + tail;
    var sepIndex := RFind(root, '/');
    DotAppended(root, ext);
    AppendedFinds(root, ext);
    BasenameIsSuffix(root);
    AppendedSlicesFrom(root, tail, sepIndex + 1);
    SplitExtAt(p, sepIndex, |root|);
  }

  /** Concatenation regroups: appending `"."` and then `ext` is appending `"." + ext`. */
  lemma DotAppended(root: string, ext: string)
    ensures root + "." + ext == root + ("." + ext)
  {
  }

  /** The last component is the suffix after the last `/`. */
  lemma BasenameIsSuffix(p: string)
    ensures Basename(p) == p[RFind(p, '/') + 1..]
  {
  }

  /** Slicing `root + tail` within `root`, or from its end, gives back `root`'s part and `tail`. */
  lemma AppendedSlicesFrom(root: string, tail: string, from: nat)
    requires from <= |root|
    ensures var p := root + tail;
      && p[..|root|] == root
      && p[|root|..] == tail
      && p[from..|root|] == root[from..]
  {
  }

  /** Where the last dot follows the last `/` with a non-dot character in between, `splitext` cuts at that dot. */
  lemma SplitExtAt(p: string, sepIndex: int, dotIndex: int)
    requires RFind(p, '/') == sepIndex && RFind(p, '.') == dotIndex
    requires dotIndex > sepIndex && HasNonDot(p[sepIndex + 1..dotIndex])
    ensures SplitExt(p) == (p[..dotIndex], p[dotIndex..])
  {
  }

  /** In `root + "." + ext`, the appended dot is the last dot and the last `/` is the root's. */
  lemma AppendedFinds(root: string, ext: string)
    requires '.' !in ext && '/' !in ext
    ensures RFind(root + "." + ext, '.') == |root|
    ensures RFind(root + "." + ext, '/') == RFind(root, '/')
  {
    var p := root + "." + ext;
    AppendedChars(root, ext);
    RFindUnique(p, '.', |root|);
    var sepIndex := RFind(root, '/');
    assert forall j :: sepIndex < j < |root| ==> root[j] != '/';
    RFindUnique(p, '/', sepIndex);
  }

  /** Where the characters of `root + "." + ext` come from. */
  lemma AppendedChars(root: string, ext: string)
    requires '.' !in ext && '/' !in ext
    ensures var p := root + "." + ext;
      && |p| == |root| + 1 + |ext|
      && (forall j :: 0 <= j < |root| ==> p[j] == root[j])
      && p[|root|] == '.'
      && (forall j :: |root| < j < |p| ==> p[j] != '.' && p[j] != '/')
  {
    var d := "." + ext;
    var p := root + d;
    forall j | |root| < j < |p| ensures p[j] != '.' && p[j] != '/' {
      assert p[j] == d[j - |root|] == ext[j - |root| - 1];
    }
  }

  /** The root `splitext` leaves keeps a non-dot character in its last component. */
  lemma SplitExtRootHasNonDot(p: string)
    requires HasNonDot(Basename(p))
    ensures HasNonDot(Basename(SplitExt(p).0))
  {
  }
}
