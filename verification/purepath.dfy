/**
 * The part of Python's `pathlib` that the audio processor uses, for POSIX
 * paths: building a path from a string, turning it back into one, and the
 * `name`, `parent`, `suffix` and `stem` properties and the `/` operator.
 * These are pure computations on the path's text; nothing here touches a
 * filesystem.
 *
 * The functions carry no postconditions of their own; what they guarantee is
 * stated by the lemmas after them, which callers invoke where they need it.
 */
module PurePaths {
  import opened PyStr

  /**
   * A parsed POSIX path: its root, which is "", "/" or "//" (POSIX keeps
   * exactly two leading slashes apart), and its components after the root.
   */
  datatype PurePath = PurePath(root: string, parts: seq<string>)

  /** A component as parsing leaves it: not empty, not ".", no separator. */
  predicate IsComponent(c: string)
  {
    c != "" && c != "." && '/' !in c
  }

  predicate WellFormed(p: PurePath)
  {
    (p.root == "" || p.root == "/" || p.root == "//")
    && forall i :: 0 <= i < |p.parts| ==> IsComponent(p.parts[i])
  }

  /** The root that POSIX `splitroot` finds at the start of `s`. */
  function SplitRoot(s: string): string
  {
    if |s| == 0 || s[0] != '/' then ""
    else if |s| >= 2 && s[1] == '/' && !(|s| >= 3 && s[2] == '/') then "//"
    else "/"
  }

  /** The pieces of a split that parsing keeps: the empty ones and "." are dropped. */
  function KeptPieces(pieces: seq<string>): seq<string>
  {
    if pieces == [] then []
    else if pieces[0] == "" || pieces[0] == "." then KeptPieces(pieces[1..])
    else [pieces[0]] + KeptPieces(pieces[1..])
  }

  /** Of separator-free pieces, only components are kept. */
  lemma {:induction false} KeptPiecesAreComponents(pieces: seq<string>)
    requires forall i :: 0 <= i < |pieces| ==> '/' !in pieces[i]
    ensures forall i :: 0 <= i < |KeptPieces(pieces)| ==> IsComponent(KeptPieces(pieces)[i])
  {
    if pieces != [] {
      KeptPiecesAreComponents(pieces[1..]);
    }
  }

  /** Pieces that are all components are all kept. */
  lemma {:induction false} KeptPiecesKeepsComponents(pieces: seq<string>)
    requires forall i :: 0 <= i < |pieces| ==> IsComponent(pieces[i])
    ensures KeptPieces(pieces) == pieces
  {
    if pieces != [] {
      KeptPiecesKeepsComponents(pieces[1..]);
    }
  }

  /** `PurePosixPath(s)`. */
  function Parse(s: string): PurePath
  {
    PurePath(SplitRoot(s), KeptPieces(Split(s, '/')))
  }

  /** Whatever the text, parsing yields a recognised root and proper components. */
  lemma ParseWellFormed(s: string)
    ensures WellFormed(Parse(s))
  {
    SplitPiecesFree(s, '/');
    KeptPiecesAreComponents(Split(s, '/'));
  }

  /** `str(p)`: the root, then the components joined by "/", or "." when both are empty. */
  function ToString(p: PurePath): string
  {
    var s := p.root + Join(p.parts, "/");
    if s == "" then "." else s
  }

  lemma SplitAfterSeparator(t: string)
    ensures Split("/" + t, '/') == [""] + Split(t, '/')
  {
    assert ("/" + t)[1..] == t;
  }

  lemma JoinStartsWithFirst(parts: seq<string>, sep: string)
    requires |parts| >= 1 && parts[0] != ""
    ensures |Join(parts, sep)| > 0 && Join(parts, sep)[0] == parts[0][0]
  {
  }

  /** Printing a well-formed path and parsing the text gives back the same path. */
  lemma ParseToString(p: PurePath)
    requires WellFormed(p)
    ensures Parse(ToString(p)) == p
  {
    if p.parts == [] {
      ParseToStringRootOnly(p.root);
    } else {
      var body := Join(p.parts, "/");
      SplitJoin(p.parts, '/');
      KeptPiecesKeepsComponents(p.parts);
      assert p.parts[0][0] != '/';
      JoinStartsWithFirst(p.parts, "/");
      if p.root == "" {
        assert ToString(p) == body;
      } else if p.root == "/" {
        assert ToString(p) == "/" + body;
        SplitAfterSeparator(body);
      } else {
        assert ToString(p) == "/" + ("/" + body);
        ParseToStringDoubleSlash(p.parts, body);
      }
    }
  }

  lemma ParseToStringRootOnly(root: string)
    requires root == "" || root == "/" || root == "//"
    ensures Parse(ToString(PurePath(root, []))) == PurePath(root, [])
  {
    var s := ToString(PurePath(root, []));
    if root == "" {
      assert s == ".";
      SplitNoSeparator(".", '/');
      assert KeptPieces(["."]) == [];
    } else if root == "/" {
      assert s == "/" + "";
      SplitAfterSeparator("");
      assert KeptPieces(["", ""]) == [];
    } else {
      assert s == "/" + ("/" + "");
      SplitAfterSeparator("/" + "");
      SplitAfterSeparator("");
      assert Split(s, '/') == ["", "", ""];
      assert |s| == 2 && s[1] == '/';
      assert SplitRoot(s) == "//";
      assert KeptPieces(["", "", ""]) == [];
    }
  }

  lemma ParseToStringDoubleSlash(parts: seq<string>, body: string)
    requires |parts| >= 1 && Split(body, '/') == parts && KeptPieces(parts) == parts
    requires |body| > 0 && body[0] != '/'
    ensures Parse("/" + ("/" + body)) == PurePath("//", parts)
  {
    var s := "/" + ("/" + body);
    SplitAfterSeparator("/" + body);
    SplitAfterSeparator(body);
    assert Split(s, '/') == [""] + ([""] + parts);
    KeptPiecesDropsEmpty([""] + parts);
    KeptPiecesDropsEmpty(parts);
    assert s[1] == '/' && s[2] == body[0];
  }

  lemma KeptPiecesDropsEmpty(pieces: seq<string>)
    ensures KeptPieces([""] + pieces) == KeptPieces(pieces)
  {
    assert ([""] + pieces)[1..] == pieces;
  }

  /** A single component parses to a relative path holding just it. */
  lemma ParseComponent(c: string)
    requires IsComponent(c)
    ensures Parse(c) == PurePath("", [c])
  {
    SplitNoSeparator(c, '/');
    assert c[0] != '/';
    KeptPiecesKeepsComponents([c]);
  }

  /** `p.name`: the last component, or "" when there is none. */
  function Name(p: PurePath): string
  {
    if p.parts == [] then "" else p.parts[|p.parts| - 1]
  }

  /** `p.parent`: the path without its last component; a path without components is its own parent. */
  function Parent(p: PurePath): PurePath
  {
    if p.parts == [] then p else PurePath(p.root, p.parts[..|p.parts| - 1])
  }

  /** The name of a well-formed path never holds the separator, and its parent is well formed. */
  lemma NameAndParent(p: PurePath)
    requires WellFormed(p)
    ensures '/' !in Name(p)
    ensures WellFormed(Parent(p))
  {
    if p.parts != [] {
      assert IsComponent(p.parts[|p.parts| - 1]);
    }
  }

  /**
   * `p / segment`: a segment with a root replaces the path, any other one is
   * appended to it component by component.
   */
  function JoinPath(p: PurePath, segment: string): PurePath
  {
    var q := Parse(segment);
    if q.root != "" then q else PurePath(p.root, p.parts + q.parts)
  }

  /** Appending a single component makes it the name and leaves the path as the parent. */
  lemma JoinComponent(p: PurePath, c: string)
    requires WellFormed(p) && IsComponent(c)
    ensures WellFormed(JoinPath(p, c))
    ensures Name(JoinPath(p, c)) == c
    ensures Parent(JoinPath(p, c)) == p
  {
    ParseComponent(c);
    assert (p.parts + [c])[..|p.parts|] == p.parts;
  }

  /** Where `suffix` and `stem` split a name: the last dot, if it is neither first nor last. */
  function SuffixStart(name: string): nat
  {
    var i := RFind(name, '.');
    if 0 < i < |name| - 1 then i else |name|
  }

  /** `suffix` of a path with this name. */
  function Suffix(name: string): string
  {
    name[SuffixStart(name)..]
  }

  /** `stem` of a path with this name. */
  function Stem(name: string): string
  {
    name[..SuffixStart(name)]
  }

  /**
   * A suffix is either empty or a dot followed by at least one character,
   * none of them a dot, that ends the name without being all of it; the stem
   * is what comes before it, and is not empty when there is a suffix.
   */
  lemma SuffixShape(name: string)
    ensures Stem(name) + Suffix(name) == name
    ensures Suffix(name) == "" || (|Suffix(name)| >= 2 && |Stem(name)| > 0 && Suffix(name)[0] == '.')
    ensures forall k :: 0 < k < |Suffix(name)| ==> Suffix(name)[k] != '.'
  {
    var i := SuffixStart(name);
    assert Stem(name) + Suffix(name) == name[..i] + name[i..];
  }

  /** Any dot with no dot after it, neither first nor last, starts the suffix. */
  lemma SuffixAt(name: string, j: nat)
    requires 0 < j < |name| - 1 && name[j] == '.'
    requires forall k :: j < k < |name| ==> name[k] != '.'
    ensures Suffix(name) == name[j..]
    ensures Stem(name) == name[..j]
  {
    RFindAt(name, '.', j);
  }
}
