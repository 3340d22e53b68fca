/**
 * One record of the modpack manifest's `files` list and the three facts the
 * audit reads off it: whether it is disabled, its category, and the registry
 * id inside its first download locator.
 */
module Manifest {
  import opened Results
  import opened Text

  /** A `files` entry: relative path and download locators, in manifest order. */
  datatype ModEntry = ModEntry(path: string, downloads: seq<string>)

  /** The entry's last `.`-separated piece is `disabled`. */
  predicate IsDisabled(path: string)
  {
    var pieces := Split(path, '.');
    pieces[|pieces| - 1] == "disabled"
  }

  /** A path is skipped exactly when it is `disabled` itself or ends in `.disabled`. */
  lemma DisabledIffSuffix(path: string)
    ensures IsDisabled(path) <==>
      path == "disabled" || (|path| >= 9 && path[|path| - 9..] == ".disabled")
  {
    LastPiece(path, '.');
    var pieces := Split(path, '.');
    DisabledSuffix(path, pieces[|pieces| - 1]);
  }

  /** The same, for any `.`-free suffix `p` that is the whole path or follows a `.`. */
  lemma DisabledSuffix(path: string, p: string)
    requires |p| <= |path| && p == path[|path| - |p|..] && '.' !in p
    requires |p| == |path| || path[|path| - |p| - 1] == '.'
    ensures p == "disabled" <==>
      path == "disabled" || (|path| >= 9 && path[|path| - 9..] == ".disabled")
  {
    var n := |path|;
    if p == "disabled" && n != 8 {
      assert path[n - 9..] == [path[n - 9]] + path[n - 8..];
    }
    if n >= 9 && path[n - 9..] == ".disabled" {
      assert path[n - 9] == '.';
      if |p| < 8 {
        var k := n - |p| - 1;
        assert n - 8 <= k < n;
        assert path[k] == path[n - 9..][k - (n - 9)];
      } else {
        assert p == path[n - 8..];
        assert path[n - 8..] == path[n - 9..][1..];
      }
    }
  }

  /** The category of an entry: the first `/`-separated piece of its path. */
  function Category(path: string): (c: string)
    ensures '/' !in c && |c| <= |path| && c == path[..|c|]
    ensures |c| == |path| || path[|c|] == '/'
  {
    FirstPiece(path, '/');
    Split(path, '/')[0]
  }

  /** An entry belongs to the primary category exactly when its path is `mods` or starts with `mods/`. */
  lemma PrimaryCategory(path: string)
    ensures Category(path) == "mods" <==> path == "mods" || (|path| >= 5 && path[..5] == "mods/")
  {
    var c := Category(path);
    if |path| >= 5 && path[..5] == "mods/" {
      assert path[4] == '/';
      assert forall k :: 0 <= k < 4 ==> path[k] == "mods/"[k];
      assert c == path[..4];
    }
  }

  /**
   * The registry id of a download locator: piece 4 of its `/`-split, as in
   * `https://cdn.host/data/<id>/versions/...`; None where there are fewer than
   * five pieces (the indexing fails).
   */
  function ProjectId(locator: string): (id: Option<string>)
    ensures id.Some? <==> Occurrences(locator, '/') >= 4
    ensures id.Some? ==> '/' !in id.value
  {
    var pieces := Split(locator, '/');
    if |pieces| >= 5 then Some(pieces[4]) else None
  }

  /** The id is recovered from any locator built from at least five `/`-free pieces. */
  lemma ProjectIdOfPieces(pieces: seq<string>)
    requires |pieces| >= 5
    requires forall k :: 0 <= k < |pieces| ==> '/' !in pieces[k]
    ensures ProjectId(Join(pieces, '/')) == Some(pieces[4])
  {
    SplitJoin(pieces, '/');
  }
}
