/** The deletion guard: a plain string-prefix test against a fixed deny-list. */
module Safety {
  import opened Paths

  /** Path.home(), fixed for the model. */
  const Home: seq<Name> := ["home", "user"]

  /** The protected paths, as their str() forms: root, home and the system roots. */
  const DenyList: seq<string> :=
    ["/", Str(PathRef(true, Home)), "/bin", "/usr", "/etc", "/lib", "/sbin", "/boot"]

  /** True when no deny-listed string is a prefix of the path string. */
  function IsSafeToDelete(path: string): (safe: bool)
    ensures safe ==> path == [] || path[0] != '/'
  {
    var unsafe := exists k :: 0 <= k < |DenyList| && StartsWith(path, DenyList[k]);
    assert path != [] && path[0] == '/' ==> StartsWith(path, DenyList[0]) by {
      if path != [] && path[0] == '/' { assert path[..1] == "/"; }
    }
    !unsafe
  }

  /** Every deny-listed path, and everything spelled with one as prefix, is refused. */
  lemma DenyListedUnsafe(k: nat, rest: string)
    requires k < |DenyList|
    ensures !IsSafeToDelete(DenyList[k] + rest)
  {
    assert (DenyList[k] + rest)[..|DenyList[k]|] == DenyList[k];
  }

  /**
   * Because "/" is on the list, the guard accepts a path exactly when its
   * str() form is relative: no absolute path is ever safe to delete.
   */
  lemma {:induction false} SafeIffRelative(p: PathRef)
    ensures IsSafeToDelete(Str(p)) <==> !p.absolute
  {
    var s := Str(p);
    if !p.absolute {
      forall k | 0 <= k < |DenyList|
        ensures !StartsWith(s, DenyList[k])
      {
        assert DenyList[k][0] == '/';
      }
    }
  }
}
