/**
 FeatClassFromPath.FromPath: deciding, from a connection string or a path,
 which feature-class lookup to perform. The lookups themselves (opening a
 workspace, taking its first feature class, finding one by name or inside a
 feature dataset) belong to the GIS engine, so a `Resolution` names the
 lookup chosen and its arguments instead of performing it. The tests the
 code makes of its environment are the four predicates of an `Env`.
 */
module FeatClassFromPath {
  import opened Strings
  import opened Paths

  /** The file geodatabase marker; a file geodatabase is a directory named *.gdb. */
  const Gdb: string := ".gdb"
  /** The personal (Access) geodatabase marker and file extension. */
  const Mdb: string := ".mdb"
  /** The shapefile extension. */
  const Shp: string := ".shp"

  /** The lookup chosen for an input, with the strings handed to it. */
  datatype Resolution =
    | FirstOfConn(connString: string)
    | FirstOfGdb(gdbPath: string)
    | FirstOfShpDir(shpDir: string)
    | ShpFile(shpPath: string)
    | FirstOfMdb(mdbPath: string)
    | FirstOfWorkspace(workspacePath: string)
    | ByName(workspacePath: string, name: string)
    | ByDatasetAndName(workspacePath: string, dataset: string, name: string)
      /** The null result: nothing matched. */
    | NotFound
      /** The exception raised when the workspace cannot be opened. */
    | OpenError(workspacePath: string)
  {
    /** The lookups made inside a workspace the dispatch opened itself. */
    predicate InWorkspace() {
      FirstOfWorkspace? || ByName? || ByDatasetAndName?
    }

    /** Every path and name handed on is lower-case. */
    predicate CarriesLowerCase() {
      match this
      case FirstOfConn(_) => true
      case FirstOfGdb(p) => IsLowerCase(p)
      case FirstOfShpDir(p) => IsLowerCase(p)
      case ShpFile(p) => IsLowerCase(p)
      case FirstOfMdb(p) => IsLowerCase(p)
      case FirstOfWorkspace(w) => IsLowerCase(w)
      case ByName(w, n) => IsLowerCase(w) && IsLowerCase(n)
      case ByDatasetAndName(w, d, n) => IsLowerCase(w) && IsLowerCase(d) && IsLowerCase(n)
      case NotFound => true
      case OpenError(w) => IsLowerCase(w)
    }
  }

  /**
   What the dispatch asks of the outside world: whether the input is a
   database connection string, whether a directory or a file exists at a
   path, and whether a workspace opens at a path.
   */
  datatype Env = Env(
    isConnectionString: string -> bool,
    directoryExists: string -> bool,
    fileExists: string -> bool,
    canOpenWorkspace: string -> bool)

  /**
   `w` is the workspace part of `path`, defined without searching: a prefix
   ending in ".gdb" after which ".gdb" does not occur again, or, when ".gdb"
   occurs nowhere in `path`, a prefix ending in ".mdb" after which ".mdb"
   does not occur again.
   */
  predicate IsWorkspacePrefix(path: string, w: string) {
    && w <= path
    && ( || (EndsWith(w, Gdb) && !Occurs(path[|w|..], Gdb))
         || (!Occurs(path, Gdb) && EndsWith(w, Mdb) && !Occurs(path[|w|..], Mdb)))
  }

  /** A marker is a dot followed by characters that are not dots. */
  predicate IsMarker(pat: string) {
    |pat| > 0 && pat[0] == '.' && forall k | 1 <= k < |pat| :: pat[k] != '.'
  }

  /** The prefix ending with the last occurrence of `pat` has no occurrence of `pat` after it. */
  lemma LastOccurrencePrefix(path: string, pat: string, i: int)
    requires |pat| > 0
    requires OccursAt(path, pat, i)
    requires forall j | i < j :: !OccursAt(path, pat, j)
    ensures path[..i + |pat|] <= path
    ensures EndsWith(path[..i + |pat|], pat)
    ensures !Occurs(path[i + |pat|..], pat)
  {
    var rest := path[i + |pat|..];
    if Occurs(rest, pat) {
      var k :| 0 <= k <= |rest| - |pat| && OccursAt(rest, pat, k);
      assert rest[k..k + |pat|] == path[i + |pat| + k..i + |pat| + k + |pat|];
      assert OccursAt(path, pat, i + |pat| + k);
    }
  }

  /** A prefix of `path` ending with `pat` shows an occurrence of `pat` in `path`. */
  lemma PrefixMarkerOccurs(path: string, pat: string, w: string)
    requires w <= path && EndsWith(w, pat)
    ensures OccursAt(path, pat, |w| - |pat|)
  {
    assert path[|w| - |pat|..|w|] == w[|w| - |pat|..];
  }

  /**
   When a prefix `w` ends with the marker `pat` and `pat` does not occur after
   `w`, no occurrence of `pat` starts after the one that ends `w`: one
   overlapping the end of `w` would need a dot where `pat` has none.
   */
  lemma NoMarkerAfterPrefix(path: string, pat: string, w: string)
    requires IsMarker(pat)
    requires w <= path && EndsWith(w, pat) && !Occurs(path[|w|..], pat)
    ensures forall j | |w| - |pat| < j :: !OccursAt(path, pat, j)
  {
    var rest := path[|w|..];
    forall j | |w| - |pat| < j ensures !OccursAt(path, pat, j) {
      if j < |w| {
        assert path[j] == w[j] == pat[j - (|w| - |pat|)];
        if j + |pat| <= |path| {
          assert path[j..j + |pat|][0] == path[j] != pat[0];
        }
      } else if j + |pat| <= |path| {
        assert path[j..j + |pat|] == rest[j - |w|..j - |w| + |pat|];
        assert !OccursAt(rest, pat, j - |w|);
      }
    }
  }

  /**
   Two prefixes of `path` that both end with the marker `pat`, neither
   followed by another `pat`, are the same prefix.
   */
  lemma MarkerPrefixUnique(path: string, pat: string, w1: string, w2: string)
    requires IsMarker(pat)
    requires w1 <= path && EndsWith(w1, pat) && !Occurs(path[|w1|..], pat)
    requires w2 <= path && EndsWith(w2, pat) && !Occurs(path[|w2|..], pat)
    ensures w1 == w2
  {
    PrefixMarkerOccurs(path, pat, w1);
    PrefixMarkerOccurs(path, pat, w2);
    NoMarkerAfterPrefix(path, pat, w1);
    NoMarkerAfterPrefix(path, pat, w2);
    assert |w1| == |w2|;
    assert w1 == path[..|w1|] == w2;
  }

  /** A path has at most one workspace prefix. */
  lemma WorkspacePrefixUnique(path: string, w1: string, w2: string)
    requires IsWorkspacePrefix(path, w1) && IsWorkspacePrefix(path, w2)
    ensures w1 == w2
  {
    if EndsWith(w1, Gdb) {
      PrefixMarkerOccurs(path, Gdb, w1);
    }
    if EndsWith(w2, Gdb) {
      PrefixMarkerOccurs(path, Gdb, w2);
    }
    if EndsWith(w1, Gdb) && EndsWith(w2, Gdb) {
      MarkerPrefixUnique(path, Gdb, w1, w2);
    } else if !EndsWith(w1, Gdb) && !EndsWith(w2, Gdb) {
      MarkerPrefixUnique(path, Mdb, w1, w2);
    }
  }

  /**
   One of the two marker searches: the prefix ending just after the
   last occurrence of the four-character marker `pat`, or null.
   */
  function LastMarkerPrefix(path: string, pat: string): (prefix: Option<string>)
    requires |pat| == 4
    ensures prefix.None? <==> !Occurs(path, pat)
    ensures prefix.Some? ==> && prefix.value <= path
                             && EndsWith(prefix.value, pat)
                             && !Occurs(path[|prefix.value|..], pat)
  {
    var index := LastIndexOf(path, pat);
    if index > -1 then
      LastOccurrencePrefix(path, pat, index);
      Some(path[..index + 4])
    else None
  }

  /**
   The workspace search: the prefix ending just after the last ".gdb", or
   failing that just after the last ".mdb"; null when neither occurs.
   */
  function WorkspacePathOf(path: string): (workspacePath: Option<string>)
    ensures workspacePath.None? <==> !Occurs(path, Gdb) && !Occurs(path, Mdb)
    ensures workspacePath.Some? ==> IsWorkspacePrefix(path, workspacePath.value)
  {
    var gdbPath := LastMarkerPrefix(path, Gdb);
    if gdbPath.Some? then gdbPath else LastMarkerPrefix(path, Mdb)
  }

  /** The search and the definition agree: the workspace path found is the workspace prefix. */
  lemma WorkspacePathIsPrefix(path: string, w: string)
    ensures WorkspacePathOf(path) == Some(w) <==> IsWorkspacePrefix(path, w)
  {
    if IsWorkspacePrefix(path, w) {
      if EndsWith(w, Gdb) {
        PrefixMarkerOccurs(path, Gdb, w);
      } else {
        PrefixMarkerOccurs(path, Mdb, w);
      }
      WorkspacePrefixUnique(path, w, WorkspacePathOf(path).value);
    }
  }

  /** The null-or-white-space guard never rejects a workspace path that was found. */
  lemma WorkspacePathNeverBlank(path: string)
    requires WorkspacePathOf(path).Some?
    ensures !IsNullOrWhiteSpace(WorkspacePathOf(path))
  {
    var w := WorkspacePathOf(path).value;
    assert w[|w| - 4] == '.' by {
      assert w[|w| - 4..][0] == '.';
    }
  }

  /**
   The Replace that cuts off the workspace removes only the leading prefix: the
   prefix occurs nowhere else in the path, so the sub-path is exactly what
   follows it.
   */
  lemma {:induction false} SubPathIsSuffix(path: string, w: string)
    requires IsWorkspacePrefix(path, w)
    ensures |w| > 0
    ensures forall j | OccursAt(path, w, j) :: j == 0
    ensures Replace(path, w, "") == path[|w|..]
  {
    var pat := if EndsWith(w, Gdb) then Gdb else Mdb;
    NoMarkerAfterPrefix(path, pat, w);
    forall j | OccursAt(path, w, j) ensures j == 0 {
      OccurrenceOfSuffix(path, w, pat, j);
    }
    var rest := path[|w|..];
    forall k | 0 <= k <= |rest| - |w| ensures !OccursAt(rest, w, k) {
      assert OccursAt(rest, w, k) ==> OccursAt(path, w, |w| + k) by {
        if OccursAt(rest, w, k) {
          assert rest[k..k + |w|] == path[|w| + k..|w| + k + |w|];
        }
      }
    }
    ReplaceLeadingOnly(path, w);
  }

  /**
   The lookup inside the opened workspace `wp`, chosen by the names the
   sub-path holds.
   */
  function FromSubPath(wp: string, subPath: string): (r: Resolution)
    ensures r.NotFound? || (r.InWorkspace() && r.workspacePath == wp)
    ensures IsLowerCase(wp) && IsLowerCase(subPath) ==> r.CarriesLowerCase()
  {
    if !HasSeparator(subPath) then FirstOfWorkspace(wp)
    else
      var names := Split(subPath);
      if |names| == 1 then ByName(wp, names[0])
      else if |names| == 2 then ByDatasetAndName(wp, names[0], names[1])
      else NotFound
  }

  /** The lookup for a path that is neither a directory nor a file: search, guard, open, cut and split. */
  function FromWorkspacePath(env: Env, path: string): (r: Resolution)
    ensures r.NotFound? || r.OpenError? || r.InWorkspace()
    ensures r.OpenError? ==> !env.canOpenWorkspace(r.workspacePath)
    ensures r.InWorkspace() ==> env.canOpenWorkspace(r.workspacePath)
    ensures !r.NotFound? ==> IsWorkspacePrefix(path, r.workspacePath)
    ensures IsLowerCase(path) ==> r.CarriesLowerCase()
  {
    var workspacePath := WorkspacePathOf(path);
    if IsNullOrWhiteSpace(workspacePath) then NotFound
    else
      var wp := workspacePath.value;
      SubPathIsSuffix(path, wp);
      if !env.canOpenWorkspace(wp) then OpenError(wp)
      else
        var subPath := Replace(path, wp, "");
        assert IsLowerCase(path) ==> IsLowerCase(wp) && IsLowerCase(subPath);
        FromSubPath(wp, subPath)
  }

  /** FeatClassFromPath.FromPath. */
  function FromPath(env: Env, connStrOrPath: string): (r: Resolution)
    ensures r.FirstOfConn? <==> env.isConnectionString(connStrOrPath)
    ensures r.FirstOfConn? ==> r.connString == connStrOrPath
    ensures r.CarriesLowerCase()
    ensures r.OpenError? ==> !env.canOpenWorkspace(r.workspacePath)
    ensures r.InWorkspace() ==> env.canOpenWorkspace(r.workspacePath)
    ensures r.OpenError? || r.InWorkspace() ==> IsWorkspacePrefix(ToLower(connStrOrPath), r.workspacePath)
  {
    if env.isConnectionString(connStrOrPath) then FirstOfConn(connStrOrPath)
    else
      var path := ToLower(connStrOrPath);
      if env.directoryExists(path) then
        if EndsWith(path, Gdb) then FirstOfGdb(path) else FirstOfShpDir(path)
      else if env.fileExists(path) then
        var extension := Extension(path);
        if extension == Shp then ShpFile(path)
        else if extension == Mdb then FirstOfMdb(path)
        else NotFound
      else FromWorkspacePath(env, path)
  }

  /**
   An existing directory is a file geodatabase when it ends with ".gdb" and a
   shapefile directory otherwise; it is never split into workspace and
   sub-path.
   */
  lemma ExistingDirectory(env: Env, s: string)
    requires !env.isConnectionString(s) && env.directoryExists(ToLower(s))
    ensures FromPath(env, s).FirstOfGdb? <==> EndsWith(ToLower(s), Gdb)
    ensures FromPath(env, s) in {FirstOfGdb(ToLower(s)), FirstOfShpDir(ToLower(s))}
    ensures !FromPath(env, s).InWorkspace() && !FromPath(env, s).OpenError?
  {
  }

  lemma ExtensionsWellFormed()
    ensures IsExtension(Shp) && IsExtension(Mdb)
  {
    assert Shp[1] == 's' && Shp[2] == 'h' && Shp[3] == 'p';
    assert Mdb[1] == 'm' && Mdb[2] == 'd' && Mdb[3] == 'b';
  }

  /**
   An existing file is a shapefile when it ends with ".shp", a personal
   geodatabase when it ends with ".mdb", and not found otherwise.
   */
  lemma ExistingFile(env: Env, s: string)
    requires !env.isConnectionString(s) && !env.directoryExists(ToLower(s)) && env.fileExists(ToLower(s))
    ensures FromPath(env, s) == ShpFile(ToLower(s)) <==> EndsWith(ToLower(s), Shp)
    ensures FromPath(env, s) == FirstOfMdb(ToLower(s)) <==> EndsWith(ToLower(s), Mdb)
    ensures !EndsWith(ToLower(s), Shp) && !EndsWith(ToLower(s), Mdb) ==> FromPath(env, s) == NotFound
  {
    var path := ToLower(s);
    assert FromPath(env, s) == if Extension(path) == Shp then ShpFile(path)
                               else if Extension(path) == Mdb then FirstOfMdb(path)
                               else NotFound;
    ExtensionsWellFormed();
    ExtensionIsSuffix(path, Shp);
    ExtensionIsSuffix(path, Mdb);
  }

  /** A missing path with neither ".gdb" nor ".mdb" in it is not found. */
  lemma MissingPathWithoutWorkspace(env: Env, s: string)
    requires !env.isConnectionString(s)
    requires !env.directoryExists(ToLower(s)) && !env.fileExists(ToLower(s))
    ensures !Occurs(ToLower(s), Gdb) && !Occurs(ToLower(s), Mdb) ==> FromPath(env, s) == NotFound
  {
  }

  /**
   For a missing path with workspace prefix `w`: an error when `w` cannot be
   opened, and otherwise a lookup inside `w` driven by the sub-path after it.
   */
  lemma MissingPathInWorkspace(env: Env, s: string, w: string)
    requires !env.isConnectionString(s)
    requires !env.directoryExists(ToLower(s)) && !env.fileExists(ToLower(s))
    requires IsWorkspacePrefix(ToLower(s), w)
    ensures FromPath(env, s) == OpenError(w) <==> !env.canOpenWorkspace(w)
    ensures env.canOpenWorkspace(w) && !HasSeparator(ToLower(s)[|w|..]) ==> FromPath(env, s) == FirstOfWorkspace(w)
    ensures env.canOpenWorkspace(w) && HasSeparator(ToLower(s)[|w|..]) ==>
              var names := Split(ToLower(s)[|w|..]);
              FromPath(env, s) == (if |names| == 1 then ByName(w, names[0])
                                   else if |names| == 2 then ByDatasetAndName(w, names[0], names[1])
                                   else NotFound)
  {
    var path := ToLower(s);
    WorkspacePathIsPrefix(path, w);
    SubPathIsSuffix(path, w);
    WorkspacePathNeverBlank(path);
    assert FromPath(env, s) == FromWorkspacePath(env, path);
  }

  /** Names that avoid the marker `pat`, joined and led by a separator, avoid `pat`. */
  lemma SeparatedNamesAvoid(names: seq<string>, sep: char, pat: string)
    requires IsSeparator(sep) && |pat| > 0 && !HasSeparator(pat)
    requires forall i | 0 <= i < |names| :: !Occurs(names[i], pat)
    ensures !Occurs(Join(names, sep), pat)
    ensures !Occurs([sep] + Join(names, sep), pat)
  {
    var joined := Join(names, sep);
    JoinAvoids(names, sep, pat);
    OccursAroundChar("", sep, joined, pat);
    assert "" + [sep] + joined == [sep] + joined;
  }

  /**
   A path built from a workspace `w` and names without ".gdb" (nor ".mdb",
   when `w` is a personal geodatabase) has `w` as its workspace prefix, and
   the text after `w` splits back into the names.
   */
  lemma BuiltPathDivides(path: string, w: string, names: seq<string>, sep: char)
    requires IsSeparator(sep) && ValidNames(names) && |names| >= 1
    requires EndsWith(w, Gdb) || (EndsWith(w, Mdb) && !Occurs(w, Gdb))
    requires forall i | 0 <= i < |names| :: !Occurs(names[i], Gdb) && (!EndsWith(w, Gdb) ==> !Occurs(names[i], Mdb))
    requires path == w + [sep] + Join(names, sep)
    ensures IsWorkspacePrefix(path, w)
    ensures HasSeparator(path[|w|..]) && Split(path[|w|..]) == names
  {
    var joined := Join(names, sep);
    var rest := [sep] + joined;
    assert path[|w|..] == rest;
    SeparatedNamesAvoid(names, sep, Gdb);
    if !EndsWith(w, Gdb) {
      SeparatedNamesAvoid(names, sep, Mdb);
      OccursAroundChar(w, sep, joined, Gdb);
    }
    assert HasSeparator(rest) by {
      assert rest[0] == sep;
    }
    assert Split(rest) == names by {
      SplitLeadingSeparator(sep, joined);
      SplitJoin(names, sep);
    }
  }

  /**
   Round trip of the documented forms "workspace\[dataset\]name": a missing
   path built from a workspace and names without ".gdb" resolves to a lookup
   of exactly those names, in that workspace; more than two names are not
   found. The names may hold ".mdb" when the workspace ends with ".gdb",
   since a ".gdb" anywhere beats a later ".mdb".
   */
  lemma FeatureClassPathRoundTrip(env: Env, s: string, w: string, names: seq<string>, sep: char)
    requires IsSeparator(sep) && ValidNames(names) && |names| >= 1
    requires EndsWith(w, Gdb) || (EndsWith(w, Mdb) && !Occurs(w, Gdb))
    requires forall i | 0 <= i < |names| :: !Occurs(names[i], Gdb) && (!EndsWith(w, Gdb) ==> !Occurs(names[i], Mdb))
    requires ToLower(s) == w + [sep] + Join(names, sep)
    requires !env.isConnectionString(s)
    requires !env.directoryExists(ToLower(s)) && !env.fileExists(ToLower(s))
    requires env.canOpenWorkspace(w)
    ensures |names| == 1 ==> FromPath(env, s) == ByName(w, names[0])
    ensures |names| == 2 ==> FromPath(env, s) == ByDatasetAndName(w, names[0], names[1])
    ensures |names| > 2 ==> FromPath(env, s) == NotFound
  {
    BuiltPathDivides(ToLower(s), w, names, sep);
    MissingPathInWorkspace(env, s, w);
  }

  /** How "x.gdbq\\fc" divides: workspace "x.gdb", then the names "q" and "fc". */
  lemma GdbInsideLongerNameDivides(path: string)
    requires path == "x.gdbq\\fc"
    ensures IsWorkspacePrefix(path, "x.gdb")
    ensures HasSeparator(path[5..]) && Split(path[5..]) == ["q", "fc"]
  {
    var rest := path[5..];
    assert rest == "q\\fc";
    assert IsWorkspacePrefix(path, "x.gdb") by {
      assert rest[0..4][0] == 'q';
    }
    assert HasSeparator(rest) by {
      assert rest[1] == '\\';
    }
    assert Split(rest) == ["q", "fc"] by {
      var names := [rest[..1], rest[2..]];
      assert rest[..1] == "q" && rest[2..] == "fc";
      assert Join(names, '\\') == rest;
      SplitJoin(names, '\\');
    }
  }

  /**
   ".gdb" inside a longer name still ends the workspace: an input that
   lower-cases to "x.gdbq\\fc" is dataset "q", class "fc" of "x.gdb".
   */
  lemma GdbInsideLongerName(env: Env, s: string)
    requires ToLower(s) == "x.gdbq\\fc"
    requires !env.isConnectionString(s)
    requires !env.directoryExists(ToLower(s)) && !env.fileExists(ToLower(s))
    requires env.canOpenWorkspace("x.gdb")
    ensures FromPath(env, s) == ByDatasetAndName("x.gdb", "q", "fc")
  {
    GdbInsideLongerNameDivides(ToLower(s));
    MissingPathInWorkspace(env, s, "x.gdb");
  }

  /** How "a.gdb\\b.mdb" divides: workspace "a.gdb", then the one name "b.mdb". */
  lemma GdbBeatsLaterMdbDivides(path: string)
    requires path == "a.gdb\\b.mdb"
    ensures IsWorkspacePrefix(path, "a.gdb")
    ensures HasSeparator(path[5..]) && Split(path[5..]) == ["b.mdb"]
  {
    var rest := path[5..];
    assert rest == "\\b.mdb";
    assert IsWorkspacePrefix(path, "a.gdb") by {
      assert rest[0..4][0] == '\\';
      assert rest[1..5][0] == 'b';
      assert rest[2..6] == Mdb != Gdb;
    }
    assert HasSeparator(rest) by {
      assert rest[0] == '\\';
    }
    assert Split(rest) == ["b.mdb"] by {
      var name := rest[1..];
      assert name == "b.mdb";
      assert !HasSeparator(name);
      assert rest == ['\\'] + name;
      SplitLeadingSeparator('\\', name);
      SplitWithoutSeparator(name);
    }
  }

  /**
   A ".gdb" anywhere beats a later ".mdb": an input that lower-cases to
   "a.gdb\\b.mdb" is class "b.mdb" of "a.gdb".
   */
  lemma GdbBeatsLaterMdb(env: Env, s: string)
    requires ToLower(s) == "a.gdb\\b.mdb"
    requires !env.isConnectionString(s)
    requires !env.directoryExists(ToLower(s)) && !env.fileExists(ToLower(s))
    requires env.canOpenWorkspace("a.gdb")
    ensures FromPath(env, s) == ByName("a.gdb", "b.mdb")
  {
    GdbBeatsLaterMdbDivides(ToLower(s));
    MissingPathInWorkspace(env, s, "a.gdb");
  }

  /** How "a.gdbroads" divides: workspace "a.gdb", then "roads" with no separator. */
  lemma SubPathWithoutSeparatorDivides(path: string)
    requires path == "a.gdbroads"
    ensures IsWorkspacePrefix(path, "a.gdb") && !HasSeparator(path[5..])
  {
    var rest := path[5..];
    assert rest == "roads";
    assert rest[0..4][0] == 'r';
    assert rest[1..5][0] == 'o';
  }

  /**
   A sub-path without a separator is ignored: an input that lower-cases to
   "a.gdbroads" is the first feature class of "a.gdb", not the class "roads".
   */
  lemma SubPathWithoutSeparatorIgnored(env: Env, s: string)
    requires ToLower(s) == "a.gdbroads"
    requires !env.isConnectionString(s)
    requires !env.directoryExists(ToLower(s)) && !env.fileExists(ToLower(s))
    requires env.canOpenWorkspace("a.gdb")
    ensures FromPath(env, s) == FirstOfWorkspace("a.gdb")
  {
    SubPathWithoutSeparatorDivides(ToLower(s));
    MissingPathInWorkspace(env, s, "a.gdb");
  }

  /** How "a.gdb\\" divides: workspace "a.gdb", then a lone separator naming nothing. */
  lemma TrailingSeparatorDivides(path: string)
    requires path == "a.gdb\\"
    ensures IsWorkspacePrefix(path, "a.gdb")
    ensures HasSeparator(path[5..]) && Split(path[5..]) == []
  {
    var rest := path[5..];
    assert rest == ['\\'] + "";
    SplitLeadingSeparator('\\', "");
  }

  /** A trailing separator alone names nothing: an input that lower-cases to "a.gdb\\" is not found. */
  lemma TrailingSeparatorNotFound(env: Env, s: string)
    requires ToLower(s) == "a.gdb\\"
    requires !env.isConnectionString(s)
    requires !env.directoryExists(ToLower(s)) && !env.fileExists(ToLower(s))
    requires env.canOpenWorkspace("a.gdb")
    ensures FromPath(env, s) == NotFound
  {
    TrailingSeparatorDivides(ToLower(s));
    MissingPathInWorkspace(env, s, "a.gdb");
  }
}
