/** `create_dir_all`: making every missing directory on the way to a path. */
module Directories {
  import opened Base
  import opened Paths
  import opened Trees

  /** `before` with the proper prefixes of `s` shorter than `n` added as directories. */
  ghost predicate HasParents(target: Tree, before: Tree, s: Path, n: nat) {
    && target.Keys == before.Keys + Prefixes(s, 0, n)
    && (forall p | p in before :: target[p] == before[p])
    && (forall p | p in Prefixes(s, 0, n) :: target[p].Directory?)
  }

  /** `create_dir_all` of the parent: existing directories are kept, missing ones are added. */
  method CreateParents(before: Tree, s: Path) returns (r: Outcome<Tree>)
    ensures r.Ok? <==> forall p | p in Prefixes(s, 0, |s|) && p in before :: before[p].Directory?
    ensures r.Ok? ==> HasParents(r.value, before, s, |s|)
  {
    var target := before;
    for n := 0 to |s|
      invariant HasParents(target, before, s, n)
    {
      var p := s[..n];
      PrefixesOneMore(s, 0, n);
      assert p in Prefixes(s, 0, |s|);
      hide Prefixes;
      if p in target {
        if !target[p].Directory? {
          return Err(Io);
        }
      } else {
        var identity: nat := *;
        target := target[p := Directory(identity)];
      }
    }
    r := Ok(target);
  }
}
