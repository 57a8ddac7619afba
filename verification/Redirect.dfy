/** redirect (src/util.c): which file a program gets when it asks for a path that only Linux has. */
module Redirect {
  import opened Wrappers
  import opened Text

  const PROC := "/proc/"
  const SYS := "/sys/"
  const CPUINFO := "/proc/cpuinfo"
  const MAPS := "/proc/self/maps"
  const DEV_NULL := "/dev/null"
  const NVIDIA_UVM := "/dev/nvidia-uvm"
  const LINUX_CERTS := "/etc/ssl/certs/ca-certificates.crt"
  const NATIVE_CERTS := "/etc/ssl/cert.pem"

  const CAPACITY := 5

  /** The file of the emulation root that stands for a path: "%s/%s" */
  function UnderRoot(root: string): string { root + "/" + CPUINFO }

  /** The key and value pairs of the table, for an emulation root. */
  function Pairs(root: string): seq<(string, string)> { [(MAPS, DEV_NULL), (CPUINFO, UnderRoot(root))] }

  /** The first pair with the key, if there is one. */
  function FirstMatch(pairs: seq<(string, string)>, path: string): Option<string> {
    if pairs == [] then None
    else if pairs[0].0 == path then Some(pairs[0].1)
    else FirstMatch(pairs[1..], path)
  }

  /** What redirect gives; None is NULL. */
  function Target(root: string, path: string): Option<string> {
    if path == NVIDIA_UVM then Some(DEV_NULL)
    else if StartsWith(path, PROC) then FirstMatch(Pairs(root), path)
    else if StartsWith(path, SYS) then None
    else if path == LINUX_CERTS then Some(NATIVE_CERTS)
    else Some(path)
  }

  /** A NULL-terminated array of keys and values. */
  ghost predicate Holds(table: array<Option<string>>, pairs: seq<(string, string)>)
    reads table
  {
    && 2 * |pairs| < table.Length && table[2 * |pairs|].None?
    && forall i :: 0 <= i < |pairs| ==> table[2 * i] == Some(pairs[i].0) && table[2 * i + 1] == Some(pairs[i].1)
  }

  /** init_redirects: the table fits its capacity. */
  method InitRedirects(root: string) returns (table: array<Option<string>>)
    ensures fresh(table) && table.Length == 5 && Holds(table, Pairs(root))
  {
    table := new Option<string>[CAPACITY];
    var i := 0;
    table[i] := Some(MAPS);
    i := i + 1;
    table[i] := Some(DEV_NULL);
    i := i + 1;
    table[i] := Some(CPUINFO);
    i := i + 1;
    table[i] := Some(UnderRoot(root));
    i := i + 1;
    table[i] := None;
    i := i + 1;
    assert i <= CAPACITY;
    assert Pairs(root)[0] == (MAPS, DEV_NULL) && Pairs(root)[1] == (CPUINFO, UnderRoot(root));
  }

  lemma NextPair(pairs: seq<(string, string)>, k: nat, path: string)
    requires k < |pairs|
    ensures FirstMatch(pairs[k..], path) == if pairs[k].0 == path then Some(pairs[k].1) else FirstMatch(pairs[k + 1..], path)
  {
  }

  /** The loop over the table: it ends at the NULL, and finds the first key that matches. */
  method Search(table: array<Option<string>>, path: string, ghost pairs: seq<(string, string)>) returns (r: Option<string>)
    requires Holds(table, pairs)
    ensures r == FirstMatch(pairs, path)
  {
    var i := 0;
    ghost var k := 0;
    assert pairs[0..] == pairs;
    while table[i].Some?
      invariant i == 2 * k && 0 <= k <= |pairs| && (k < |pairs| ==> table[i] == Some(pairs[k].0))
      invariant FirstMatch(pairs, path) == FirstMatch(pairs[k..], path)
      decreases |pairs| - k
    {
      NextPair(pairs, k, path);
      if path == table[i].value { return table[i + 1]; }
      i := i + 2;
      k := k + 1;
    }
    assert pairs[k..] == [];
    r := None;
  }

  /** redirect, with the table of init_redirects */
  method Redirect(table: array<Option<string>>, path: string, ghost root: string) returns (r: Option<string>)
    requires Holds(table, Pairs(root))
    ensures r == Target(root, path)
  {
    if path == NVIDIA_UVM { return Some(DEV_NULL); }
    if StartsWith(path, PROC) {
      r := Search(table, path, Pairs(root));
      return;
    }
    if StartsWith(path, SYS) { return None; }
    if path == LINUX_CERTS { return Some(NATIVE_CERTS); }
    r := Some(path);
  }

  /** The path lies in /proc or /sys. */
  predicate Forbidden(path: string) { StartsWith(path, PROC) || StartsWith(path, SYS) }

  /** The emulation root is one of these trees, or lies in one. */
  predicate ForbiddenRoot(root: string) { root == "/proc" || root == "/sys" || Forbidden(root) }

  /** What is joined to the root decides nothing: the joined path lies in a tree exactly when the root does. */
  lemma JoinedIsForbidden(root: string)
    ensures Forbidden(UnderRoot(root)) <==> ForbiddenRoot(root)
  {
    var p := UnderRoot(root);
    assert |p| >= 6 && p[|root|] == '/' && p[|root| + 1] == '/' && p[|root| + 2] == 'p';
    assert forall i :: 0 <= i < |root| ==> p[i] == root[i];
    assert PROC[..5] == "/proc" && SYS[..4] == "/sys";
    if |root| >= 6 {
      assert p[..6] == root[..6] && p[..5] == root[..5];
    } else if |root| == 5 {
      assert p[..5] == root && root[..5] == root && p[..6] == root + ['/'];
    } else if |root| == 4 {
      assert p[..4] == root && p[..5] == root + ['/'];
      assert p[4] == p[5] == '/';
      assert PROC[4] == 'c' && p[..6][4] == '/';
    } else {
      assert PROC[|root|] == '/' ==> |root| == 0;
      assert SYS[|root|] == '/' ==> |root| == 0;
      assert PROC[1] == 'p' && SYS[1] == 's';
      assert p[..6][|root|] == '/' && p[..5][|root|] == '/' && (|root| == 0 ==> p[..6][1] == '/' && p[..5][1] == '/');
    }
  }

  /** The fixed answers lie in no tree, and none of them is a path that redirect replaces. */
  lemma ConstantsAreClean()
    ensures !Forbidden(DEV_NULL) && !Forbidden(NATIVE_CERTS) && !Forbidden(NVIDIA_UVM) && !Forbidden(LINUX_CERTS)
    ensures DEV_NULL != NVIDIA_UVM && DEV_NULL != LINUX_CERTS && NATIVE_CERTS != LINUX_CERTS && NATIVE_CERTS != NVIDIA_UVM
    ensures StartsWith(CPUINFO, PROC) && CPUINFO != NVIDIA_UVM && CPUINFO != MAPS
  {
    assert DEV_NULL[1] == 'd' && NATIVE_CERTS[1] == 'e' && NVIDIA_UVM[1] == 'd' && LINUX_CERTS[1] == 'e';
    assert PROC[1] == 'p' && SYS[1] == 's';
    assert |DEV_NULL| == 9 && |NVIDIA_UVM| == 15 && |NATIVE_CERTS| == 17 && |LINUX_CERTS| == 34 && |CPUINFO| == 13 && |MAPS| == 15;
    assert CPUINFO[..6] == PROC;
    assert CPUINFO[1] == 'p';
    forall c | c in [DEV_NULL, NATIVE_CERTS, NVIDIA_UVM, LINUX_CERTS] ensures !Forbidden(c) {
      assert c[..6][1] == c[1] && c[..5][1] == c[1];
    }
  }

  /** The emulated file is none of the paths that are replaced. */
  lemma JoinedIsOrdinary(root: string)
    ensures UnderRoot(root) != NVIDIA_UVM && UnderRoot(root) != LINUX_CERTS && UnderRoot(root) != MAPS && UnderRoot(root) != CPUINFO
  {
    var p := UnderRoot(root);
    assert p[|p| - 1] == CPUINFO[|CPUINFO| - 1] == 'o';
    assert NVIDIA_UVM[|NVIDIA_UVM| - 1] == 'm' && LINUX_CERTS[|LINUX_CERTS| - 1] == 't' && MAPS[|MAPS| - 1] == 's';
    assert |p| == |root| + 1 + |CPUINFO|;
  }

  /** What the table gives. */
  lemma TableAnswers(root: string, path: string)
    ensures FirstMatch(Pairs(root), path)
      == if path == MAPS then Some(DEV_NULL) else if path == CPUINFO then Some(UnderRoot(root)) else None
  {
    var pairs := Pairs(root);
    assert pairs[0] == (MAPS, DEV_NULL) && pairs[1..] == [(CPUINFO, UnderRoot(root))];
    assert FirstMatch(pairs[1..], path) == if path == CPUINFO then Some(UnderRoot(root)) else None by {
      assert pairs[1..][1..] == [];
    }
  }

  /** No program is ever sent into /proc or /sys, exactly when the emulation root is outside of them. */
  lemma NeverIntoProcOrSys(root: string)
    ensures (forall path :: Target(root, path).Some? ==> !Forbidden(Target(root, path).value)) <==> !ForbiddenRoot(root)
  {
    ConstantsAreClean();
    JoinedIsForbidden(root);
    TableAnswers(root, CPUINFO);
    assert Target(root, CPUINFO) == Some(UnderRoot(root));
    if !ForbiddenRoot(root) {
      forall path | Target(root, path).Some? ensures !Forbidden(Target(root, path).value) {
        TableAnswers(root, path);
      }
    }
  }

  /** A path that was redirected stays where it is, exactly when the emulation root is outside /proc and /sys. */
  lemma RedirectedOnce(root: string)
    ensures (forall path :: Target(root, path).Some? ==> Target(root, Target(root, path).value) == Target(root, path))
            <==> !ForbiddenRoot(root)
  {
    ConstantsAreClean();
    JoinedIsForbidden(root);
    JoinedIsOrdinary(root);
    TableAnswers(root, CPUINFO);
    assert Target(root, CPUINFO) == Some(UnderRoot(root));
    TableAnswers(root, UnderRoot(root));
    if !ForbiddenRoot(root) {
      forall path | Target(root, path).Some? ensures Target(root, Target(root, path).value) == Target(root, path) {
        TableAnswers(root, path);
      }
    }
  }

  /** Within /proc only the two files of the table are answered, within /sys nothing; everything else is
      answered, and only two other files are replaced. */
  lemma WhatIsAnswered(root: string, path: string)
    ensures Target(root, path).None? <==> Forbidden(path) && path != MAPS && path != CPUINFO
    ensures !Forbidden(path) && path != NVIDIA_UVM && path != LINUX_CERTS ==> Target(root, path) == Some(path)
    ensures path == "/dev/nvidia-uvm" ==> Target(root, path) == Some("/dev/null")
    ensures path == "/etc/ssl/certs/ca-certificates.crt" ==> Target(root, path) == Some("/etc/ssl/cert.pem")
    ensures path == "/proc/self/maps" ==> Target(root, path) == Some("/dev/null")
    ensures path == "/proc/cpuinfo" ==> Target(root, path) == Some(root + "//proc/cpuinfo")
  {
    assert UnderRoot(root) == root + "//proc/cpuinfo";
    ConstantsAreClean();
    TableAnswers(root, path);
    assert MAPS[..6] == PROC;
  }
}
