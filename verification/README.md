# FeatClassFromPath.FromPath, modelled in Dafny

WLib's `FeatClassFromPath.FromPath` takes a connection string or a file-system
path and chooses which feature-class lookup to make: the first feature class
of a connection, a file geodatabase, a shapefile directory or a personal
geodatabase; a shapefile; or, for a path that names something inside a
geodatabase (`workspace[\dataset]\name`), a lookup by name inside the
workspace found in the path. This project models that choice as a pure
function and proves what it decides.

- `strings.dfy` (module `Strings`): the .NET string operations the
  choice uses, on `seq<char>`. They are ASCII `ToLower`, `EndsWith`,
  `LastIndexOf`, `Replace` (every non-overlapping occurrence, scanned left to
  right) and `IsNullOrWhiteSpace` over an `Option` that stands for a
  nullable string.
- `paths.dfy` (module `Paths`): the two directory separators of a Windows
  host, `\` and `/`; `String.Split` on both of them with empty entries
  removed; its inverse `Join`; and `Path.GetExtension`. The extension scan runs backwards from the end and
  stops at a separator or volume separator. A dot as the last character
  gives "".
- `feat_class_from_path.dfy` (module `FeatClassFromPath`): the `Resolution`
  datatype, with one constructor per lookup plus `NotFound` (the `null`
  return) and `OpenError` (the exception thrown when a workspace does not
  open). It also holds the `Env` of four environment predicates, the
  dispatch `FromPath`, and the properties proved of it.

The GIS engine's lookups are not performed. A `Resolution` names the lookup
and the strings handed to it. The connection-string test, `Directory.Exists`,
`File.Exists` and whether a workspace opens are the uninterpreted predicates
of `Env`.

The source's quirks are kept and proved on concrete inputs (the second one also for all built paths, by the round trip):
- `.gdb` ends the workspace even inside a longer name.
- A `.gdb` anywhere beats a later `.mdb`.
- A sub-path without a separator is ignored.
- A trailing separator alone gives `null`.

## Model

| member | source | states |
|---|---|---|
| `Strings.ToLower` | WLib.ArcGis/GeoDatabase/FeatClass/FeatClassFromPath.cs:39 | The lower-cased path has the input's length and no upper-case letter. Every character other than A-Z is kept, and each of A-Z becomes its lower-case letter. |
| `Strings.LastIndexOf` | WLib.ArcGis/GeoDatabase/FeatClass/FeatClassFromPath.cs:53-56 | The search gives -1 exactly when the pattern does not occur. Otherwise the pattern occurs at the index returned, and at no later index. |
| `Strings.Replace` | WLib.ArcGis/GeoDatabase/FeatClass/FeatClassFromPath.cs:64 | Replacing a pattern that does not occur leaves the string unchanged. |
| `Strings.ReplaceLeadingOnly` | WLib.ArcGis/GeoDatabase/FeatClass/FeatClassFromPath.cs:64 | Deleting a prefix `w` that does not occur again after itself leaves exactly the rest of the string. |
| `Paths.Split` | WLib.ArcGis/GeoDatabase/FeatClass/FeatClassFromPath.cs:69 | Splitting on both separators with empty entries removed gives names that are non-empty, separator-free and lower-case when the input is. The names concatenate to the input with its separators deleted. |
| `Paths.SplitJoin` | WLib.ArcGis/GeoDatabase/FeatClass/FeatClassFromPath.cs:69 | Splitting names joined with either separator gives the same names back. |
| `Paths.SplitWithoutSeparator` | WLib.ArcGis/GeoDatabase/FeatClass/FeatClassFromPath.cs:65-69 | A string with no separator splits into itself, or into no name when it is empty. |
| `Paths.Extension` | WLib.ArcGis/GeoDatabase/FeatClass/FeatClassFromPath.cs:45 | The extension is either "" or a dot followed by at least one character that is neither a dot nor a separator, and the path ends with it. |
| `Paths.ExtensionIsSuffix` | WLib.ArcGis/GeoDatabase/FeatClass/FeatClassFromPath.cs:45-47 | A path has a well-formed extension such as ".shp" or ".mdb" exactly when it ends with it. |
| `FeatClassFromPath.LastMarkerPrefix` | WLib.ArcGis/GeoDatabase/FeatClass/FeatClassFromPath.cs:53-56 | The marker search finds nothing exactly when the marker does not occur. A prefix that is found ends with the marker, and the marker does not occur after it. |
| `FeatClassFromPath.WorkspacePathOf` | WLib.ArcGis/GeoDatabase/FeatClass/FeatClassFromPath.cs:51-56 | No workspace path is found exactly when neither ".gdb" nor ".mdb" occurs. A path that is found is the workspace prefix: it ends at the last ".gdb", or at the last ".mdb" when ".gdb" occurs nowhere. |
| `FeatClassFromPath.WorkspacePathIsPrefix` | WLib.ArcGis/GeoDatabase/FeatClass/FeatClassFromPath.cs:51-56 | The search by LastIndexOf finds `w` if and only if `w` meets the search-free definition of the workspace prefix. |
| `FeatClassFromPath.WorkspacePrefixUnique` | WLib.ArcGis/GeoDatabase/FeatClass/FeatClassFromPath.cs:53-56 | A path has at most one workspace prefix. |
| `FeatClassFromPath.WorkspacePathNeverBlank` | WLib.ArcGis/GeoDatabase/FeatClass/FeatClassFromPath.cs:58 | A workspace path that was found is never null or white space, so the guard at line 58 passes whenever a marker was found. |
| `FeatClassFromPath.SubPathIsSuffix` | WLib.ArcGis/GeoDatabase/FeatClass/FeatClassFromPath.cs:53-64 | The workspace prefix is non-empty and occurs in the path only at its start. So the Replace of line 64 yields exactly the text after the prefix. |
| `FeatClassFromPath.FromSubPath` | WLib.ArcGis/GeoDatabase/FeatClass/FeatClassFromPath.cs:65-76 | A lookup made from the sub-path is `null` or a lookup inside the given workspace. The names handed on are lower-case when the path is. |
| `FeatClassFromPath.FromWorkspacePath` | WLib.ArcGis/GeoDatabase/FeatClass/FeatClassFromPath.cs:51-76 | A path that is neither a directory nor a file gives `null`, an open error or a lookup inside a workspace. An open error names a workspace that does not open, and a lookup names one that does. Either way that workspace is the path's workspace prefix. |
| `FeatClassFromPath.FromPath` | WLib.ArcGis/GeoDatabase/FeatClass/FeatClassFromPath.cs:34-77 | The input resolves to the first feature class of a connection exactly when it is a connection string, and the unchanged input is handed on. Every other path or name handed on is lower-case. Open errors and workspace lookups are about the workspace prefix of the lower-cased input, which fails to open or opens, respectively. |
| `FeatClassFromPath.ExistingDirectory` | WLib.ArcGis/GeoDatabase/FeatClass/FeatClassFromPath.cs:39-41 | An existing directory is a file geodatabase exactly when it ends with ".gdb", and otherwise a shapefile directory. It never yields a workspace lookup or an open error. |
| `FeatClassFromPath.ExistingFile` | WLib.ArcGis/GeoDatabase/FeatClass/FeatClassFromPath.cs:43-48 | An existing file is a shapefile exactly when it ends with ".shp", and a personal geodatabase exactly when it ends with ".mdb". Otherwise it gives `null`. |
| `FeatClassFromPath.MissingPathWithoutWorkspace` | WLib.ArcGis/GeoDatabase/FeatClass/FeatClassFromPath.cs:51-58 | A path that does not exist and contains neither ".gdb" nor ".mdb" gives `null`. |
| `FeatClassFromPath.MissingPathInWorkspace` | WLib.ArcGis/GeoDatabase/FeatClass/FeatClassFromPath.cs:58-76 | Take a path that does not exist, with workspace prefix `w`. It gives an open error exactly when `w` does not open. Otherwise, with no separator after `w` it gives the first feature class of `w`. With a separator, it gives a lookup by the one name or the dataset-and-name pair, and `null` for any other number of names. |
| `FeatClassFromPath.FeatureClassPathRoundTrip` | WLib.ArcGis/GeoDatabase/FeatClass/FeatClassFromPath.cs:51-73 | Consider a path built as `workspace\name` or `workspace\dataset\name` from names without ".gdb", where the names may hold ".mdb" unless the workspace is a personal geodatabase. It resolves to a lookup of exactly those names in that workspace. Three or more names give `null`. |
| `FeatClassFromPath.GdbInsideLongerName` | WLib.ArcGis/GeoDatabase/FeatClass/FeatClassFromPath.cs:53-54 | "x.gdbq\fc" is dataset "q", class "fc" of workspace "x.gdb": the ".gdb" inside "x.gdbq" ends the workspace. |
| `FeatClassFromPath.GdbBeatsLaterMdb` | WLib.ArcGis/GeoDatabase/FeatClass/FeatClassFromPath.cs:53-56 | "a.gdb\b.mdb" is class "b.mdb" of workspace "a.gdb": an earlier ".gdb" wins over a later ".mdb". |
| `FeatClassFromPath.SubPathWithoutSeparatorIgnored` | WLib.ArcGis/GeoDatabase/FeatClass/FeatClassFromPath.cs:65-66 | "a.gdbroads" is the first feature class of "a.gdb". The separator-free rest "roads" is not used as a name. |
| `FeatClassFromPath.TrailingSeparatorNotFound` | WLib.ArcGis/GeoDatabase/FeatClass/FeatClassFromPath.cs:69-76 | "a.gdb\" splits its sub-path into no names and gives `null`. |

## Left out

- The lookups themselves are not modelled. These are `GetWorkspace.GetWorkSpace`, `GetFirstFeatureClass`, `GetFeatureClassByName`, `GetFeatureDataset`, `GetFeatureClasses` and the wrappers `FromShpFile`, `FromShpDir`, `FromMdb`, `FromGdb`, `FromDwg`, `FromConnString` and `FirstFrom*` (WLib.ArcGis/GeoDatabase/FeatClass/FeatClassFromPath.cs:86-188). They are closed-source GIS-engine calls, so `Resolution` only names the lookup chosen.
- `GetWorkspace.IsConnectionString` is not part of this model. Whether a workspace opens is likewise unknown. Both are predicates of `Env`.
- `Directory.Exists` and `File.Exists` are file-system I/O. They are independent predicates of `Env` over the lower-cased path, so the model also admits environments in which a path is both a directory and a file. The directory test is made first, as in the code.
- Only a Windows host is modelled. On other .NET hosts both directory separators are `/`, so a `\` would not split the sub-path.
- `ToLower` is culture-sensitive in .NET. The model maps only A-Z.
- The `OrdinalIgnoreCase` searches for ".gdb" and ".mdb" are exact searches in the model. The path is already lower-cased and both markers are lower-case ASCII.
- `EndsWith(".gdb")` is culture-sensitive in .NET. The model compares ordinally.
- `Path.GetExtension`: invalid path characters (an `ArgumentException` in .NET) are not modelled.
- A `null` input is not modelled, because a Dafny `string` is never null. It first reaches `GetWorkspace.IsConnectionString`, whose behaviour is not part of this model, so what it leads to is not known.
- `FromPath` does not model a missing feature dataset in the two-name case. The dataset lookup and the by-name lookup on its result are helpers that are not part of this model, so what a missing dataset leads to is not known; the model hands the dataset and class names on as `ByDatasetAndName`.
- Strings.Replace: its contract states only the case in which the pattern does not occur. The case the dispatch reaches, a unique leading occurrence, is stated by `Strings.ReplaceLeadingOnly`.
- WLib.UserCtrl/ArcGisCtrl/MapNavigationTools.cs is not modelled. It is Windows Forms wiring of buttons to GIS-engine commands, and its measuring behaviour lives in `MapCtrlMeasure`, which is not part of this model.
