/** The path text handling that flash_iso_or_torrent and convert_torrent_to_iso rely on:
    os.path.splitext for POSIX paths, str.lower on the extension, and the rewrite of a
    torrent path into the path of its ISO image (recovery.py:60-61, 67, 86).
 */
module Paths {

  /** str.rfind for one character: the index of the last c in s, or -1 when there is none. */
  function RFind(s: string, c: char): (k: int)
    ensures -1 <= k < |s|
    ensures k >= 0 ==> s[k] == c
    ensures forall j :: k < j < |s| ==> s[j] != c
  {
    if s == [] then -1
    else if s[|s| - 1] == c then |s| - 1
    else RFind(s[..|s| - 1], c)
  }

  /** The last occurrence is unique: any index with the two properties above is RFind's. */
  lemma RFindIs(s: string, c: char, k: int)
    requires -1 <= k < |s|
    requires k >= 0 ==> s[k] == c
    requires forall j :: k < j < |s| ==> s[j] != c
    ensures RFind(s, c) == k
  {
  }

  predicate HasNonDot(s: string) {
    exists j :: 0 <= j < |s| && s[j] != '.'
  }

  /** os.path.splitext with '/' as separator and '.' as extension separator: the extension
      runs from the last '.' of the final path component to the end, unless everything
      before that '.' in the component is dots (".bashrc", "..iso" have no extension). */
  function SplitExt(p: string): (parts: (string, string))
    ensures parts.0 + parts.1 == p
  {
    var sep := RFind(p, '/');
    var dot := RFind(p, '.');
    if dot > sep && HasNonDot(p[sep + 1..dot]) then (p[..dot], p[dot..]) else (p, [])
  }

  /** An extension is a '.' followed by characters that are neither '.' nor '/'. */
  lemma ExtShape(p: string)
    ensures Ext(p) != [] ==> Ext(p)[0] == '.'
    ensures forall j :: 0 < j < |Ext(p)| ==> Ext(p)[j] != '.' && Ext(p)[j] != '/'
  {
  }

  /** When a path has an extension: exactly when its final component holds a '.' with a
      character other than '.' somewhere before it, so leading dots belong to the root. The
      extension then runs from the last '.' of the path to its end. */
  lemma ExtExistsIff(p: string)
    ensures Ext(p) != [] <==>
      exists j, d :: RFind(p, '/') < j < d < |p| && p[j] != '.' && p[d] == '.'
    ensures Ext(p) != [] ==> Ext(p) == p[RFind(p, '.')..]
  {
    if Ext(p) != [] {
      ExtHasWitness(p);
    }
    if exists j, d :: RFind(p, '/') < j < d < |p| && p[j] != '.' && p[d] == '.' {
      var j, d :| RFind(p, '/') < j < d < |p| && p[j] != '.' && p[d] == '.';
      WitnessGivesExt(p, j, d);
    }
  }

  lemma ExtHasWitness(p: string)
    requires Ext(p) != []
    ensures Ext(p) == p[RFind(p, '.')..]
    ensures exists j, d :: RFind(p, '/') < j < d < |p| && p[j] != '.' && p[d] == '.'
  {
    var sep := RFind(p, '/');
    var dot := RFind(p, '.');
    assert dot > sep && HasNonDot(p[sep + 1..dot]);
    var k :| 0 <= k < |p[sep + 1..dot]| && p[sep + 1..dot][k] != '.';
    assert p[sep + 1 + k] != '.' && p[dot] == '.';
  }

  lemma WitnessGivesExt(p: string, j: int, d: int)
    requires RFind(p, '/') < j < d < |p| && p[j] != '.' && p[d] == '.'
    ensures Ext(p) != []
  {
    var sep := RFind(p, '/');
    var dot := RFind(p, '.');
    assert d <= dot;
    var seg := p[sep + 1..dot];
    assert seg[j - sep - 1] == p[j];
    assert HasNonDot(seg);
    assert SplitExt(p) == (p[..dot], p[dot..]);
  }

  function Root(p: string): string {
    SplitExt(p).0
  }

  function Ext(p: string): string {
    SplitExt(p).1
  }

  /** str.lower on the ASCII letters; every other character is left as it is. */
  function LowerChar(c: char): char {
    if 'A' <= c <= 'Z' then (c as int - 'A' as int + 'a' as int) as char else c
  }

  function Lower(s: string): (r: string)
    ensures |r| == |s|
    ensures forall i :: 0 <= i < |r| ==> !('A' <= r[i] <= 'Z')
    ensures forall i :: 0 <= i < |s| && 'A' <= s[i] <= 'Z' ==> r[i] as int == s[i] as int + 32
    ensures forall i :: 0 <= i < |s| && !('A' <= s[i] <= 'Z') ==> r[i] == s[i]
  {
    seq(|s|, i requires 0 <= i < |s| => LowerChar(s[i]))
  }

  /** The path convert_torrent_to_iso returns: the input with its extension replaced by ".iso". */
  function ConvertTorrentToIso(torrentPath: string): (isoPath: string)
    ensures isoPath == Root(torrentPath) + ".iso"
    ensures Ext(torrentPath) == [] ==> isoPath == torrentPath + ".iso"
    ensures Root(torrentPath) + Ext(torrentPath) == torrentPath
  {
    Root(torrentPath) + ".iso"
  }

  /** When the input has an extension, the rewritten path splits back into the same root and
      exactly the extension ".iso": converting twice changes nothing more. */
  lemma ConvertedSplitsAsIso(p: string)
    requires Ext(p) != []
    ensures SplitExt(ConvertTorrentToIso(p)) == (Root(p), ".iso")
    ensures ConvertTorrentToIso(ConvertTorrentToIso(p)) == ConvertTorrentToIso(p)
  {
    var sep := RFind(p, '/');
    var dot := RFind(p, '.');
    assert dot > sep && HasNonDot(p[sep + 1..dot]);
    assert Root(p) == p[..dot];
    var q := p[..dot] + ".iso";
    SeparatorsOfRewrite(p, sep, dot);
    assert q[..dot] == p[..dot] && q[dot..] == ".iso";
    assert q[sep + 1..dot] == p[sep + 1..dot];
    assert HasNonDot(q[sep + 1..dot]);
    assert SplitExt(q) == (p[..dot], ".iso");
  }

  /** Appending ".iso" at the last '.' of p keeps p's last '/' and puts the last '.' there. */
  lemma SeparatorsOfRewrite(p: string, sep: int, dot: int)
    requires sep == RFind(p, '/') && dot == RFind(p, '.') && dot > sep
    ensures RFind(p[..dot] + ".iso", '.') == dot
    ensures RFind(p[..dot] + ".iso", '/') == sep
  {
    var q := p[..dot] + ".iso";
    forall j | dot < j < |q|
      ensures q[j] != '.'
    {
      assert q[j] == ".iso"[j - dot];
    }
    RFindIs(q, '.', dot);
    forall j | sep < j < |q|
      ensures q[j] != '/'
    {
      if j < dot {
        assert q[j] == p[j];
      } else {
        assert q[j] == ".iso"[j - dot];
      }
    }
    RFindIs(q, '/', sep);
  }

  lemma LowerAt(s: string, i: nat)
    requires i < |s|
    ensures |Lower(s)| == |s| && Lower(s)[i] == LowerChar(s[i])
  {
  }
}
