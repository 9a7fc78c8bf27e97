/**
 Where each document lives (`src/storage/layout.rs`).

 A path is the list of its components below the data root, and a name is a `string`
 with one character per byte. Whether a component is a link is not part of this
 model, so `ensure_within` never refuses here.
 */
module Layout {
  import opened Wrappers
  import opened Decimal

  const MAX_COMPONENT_BYTES: nat := 255

  datatype Resource = Projects | Cases | Suites | Runs | Milestones | Configurations | Workflows

  datatype Parent = Project(id: string) | Suite(project: string, suite: string)

  datatype PathError = InvalidInput

  type Path = seq<string>

  function ProjectOf(parent: Parent): string {
    match parent
    case Project(id) => id
    case Suite(project, _) => project
  }

  /// Identifiers and folder names
  /// ----------------------------

  const SUFFIX: string := ".json"

  predicate HasSuffix(id: string) {
    |id| >= |SUFFIX| && id[|id| - |SUFFIX|..] == SUFFIX
  }

  function FolderName(id: string): string {
    if HasSuffix(id) then id[..|id| - |SUFFIX|] else id
  }

  function FolderWireId(folder: string): string { folder + SUFFIX }

  /** The folder of a wire id names it again, and only suffixed identifiers are wire ids. */
  lemma FolderNamesInvert(id: string, folder: string)
    ensures FolderName(FolderWireId(folder)) == folder
    ensures FolderWireId(FolderName(id)) == id <==> HasSuffix(id)
  {
    assert FolderWireId(folder)[|folder|..] == SUFFIX;
    if HasSuffix(id) {
      assert id == id[..|id| - |SUFFIX|] + id[|id| - |SUFFIX|..];
    }
  }

  predicate ValidComponent(c: string) {
    c != "" && c != "." && c != ".." && '/' !in c && '\\' !in c && '\0' !in c && |c| <= MAX_COMPONENT_BYTES
  }

  function CollectionName(resource: Resource): Option<string> {
    match resource
    case Runs => Some("test_runs")
    case Milestones => Some("milestones")
    case Configurations => Some("configurations")
    case Workflows => Some("workflows")
    case _ => None
  }

  function NodeFolder(resource: Resource, id: string): Result<string, PathError> {
    match resource
    case Cases => if ValidComponent(id) then Ok(id) else Err(InvalidInput)
    case Projects => StrippedFolder(id)
    case Suites => StrippedFolder(id)
    case _ => Err(InvalidInput)
  }

  function StrippedFolder(id: string): Result<string, PathError> {
    if HasSuffix(id) && ValidComponent(FolderName(id)) then Ok(FolderName(id)) else Err(InvalidInput)
  }

  predicate ValidDocumentId(resource: Resource, id: string) {
    ValidComponent(id) && (resource.Cases? || HasSuffix(id))
  }

  /// The path builders
  /// -----------------

  function Join(base: Result<Path, PathError>, component: Result<string, PathError>): Result<Path, PathError> {
    match base
    case Err(e) => Err(e)
    case Ok(path) =>
      match component
      case Err(e) => Err(e)
      case Ok(c) => Ok(path + [c])
  }

  function ProjectDir(project: string): Result<Path, PathError> {
    Join(Ok(["projects"]), NodeFolder(Projects, project))
  }

  function SuiteDir(project: string, suite: string): Result<Path, PathError> {
    Join(ProjectDir(project), NodeFolder(Suites, suite))
  }

  function ParentDir(parent: Parent): Result<Path, PathError> {
    match parent
    case Project(id) => ProjectDir(id)
    case Suite(project, suite) => SuiteDir(project, suite)
  }

  function CaseDir(parent: Parent, caseId: string): Result<Path, PathError> {
    Join(ParentDir(parent), NodeFolder(Cases, caseId))
  }

  function CollectionDir(project: string, resource: Resource): Result<Path, PathError> {
    match CollectionName(resource)
    case None => Err(InvalidInput)
    case Some(name) => Join(ProjectDir(project), Ok(name))
  }

  function RevisionName(version: nat): string { "v" + Digits(version) + SUFFIX }

  /// Addresses
  /// ---------

  type Version = n: nat | n < 0x1_0000_0000_0000_0000

  datatype Address =
    | ProjectMarker(project: string)
    | SuiteMarker(project: string, suite: string)
    | CaseMarker(parent: Parent, caseId: string)
    | Revision(parent: Parent, caseId: string, version: Version)
    | Document(project: string, resource: Resource, id: string)

  function PathOf(a: Address): Result<Path, PathError> {
    match a
    case ProjectMarker(project) => Join(ProjectDir(project), Ok("project.json"))
    case SuiteMarker(project, suite) => Join(SuiteDir(project, suite), Ok("suite.json"))
    case CaseMarker(parent, caseId) => Join(CaseDir(parent, caseId), Ok("test-case.json"))
    case Revision(parent, caseId, version) =>
      Join(Join(CaseDir(parent, caseId), Ok("revisions")), Ok(RevisionName(version)))
    case Document(project, resource, id) =>
      if ValidDocumentId(resource, id) then Join(CollectionDir(project, resource), Ok(id)) else Err(InvalidInput)
  }

  const RESERVED_PROJECT_CHILDREN: set<string> := {"test_runs", "milestones", "configurations", "workflows"}

  /** The suite or the direct case would be created inside one of its project's collections. */
  predicate TakesReservedName(a: Address) {
    match a
    case SuiteMarker(_, suite) => FolderName(suite) in RESERVED_PROJECT_CHILDREN
    case CaseMarker(parent, caseId) => parent.Project? && caseId in RESERVED_PROJECT_CHILDREN
    case _ => false
  }

  /** `a` is a marker that stands where the collection would list it as its document `b`. */
  predicate Shadows(a: Address, b: Address) {
    b.Document? && CollectionName(b.resource).Some? &&
    var name := CollectionName(b.resource).value;
    || (a.SuiteMarker? && a.project == b.project && FolderName(a.suite) == name && b.id == "suite.json")
    || (a.CaseMarker? && a.parent == Project(b.project) && a.caseId == name && b.id == "test-case.json")
  }

  lemma SuffixesCancel(a: string, b: string)
    requires HasSuffix(a) && HasSuffix(b) && FolderName(a) == FolderName(b)
    ensures a == b
  {
    FolderNamesInvert(a, "");
    FolderNamesInvert(b, "");
  }

  lemma CollectionsDiffer(a: Resource, b: Resource)
    requires CollectionName(a).Some? && CollectionName(a) == CollectionName(b)
    ensures a == b
  {
    assert "test_runs"[0] == 't' && "milestones"[0] == 'm' && "configurations"[0] == 'c' && "workflows"[0] == 'w';
  }

  lemma RevisionNamesDiffer(m: nat, n: nat)
    requires RevisionName(m) == RevisionName(n)
    ensures m == n
  {
    assert RevisionName(m)[1..|RevisionName(m)| - |SUFFIX|] == Digits(m);
    assert RevisionName(n)[1..|RevisionName(n)| - |SUFFIX|] == Digits(n);
    Injective(m, n);
  }

  /** The components of an accepted address, spelled out. */
  function Components(a: Address): Path {
    match a
    case ProjectMarker(project) => ["projects", FolderName(project), "project.json"]
    case SuiteMarker(project, suite) => ["projects", FolderName(project), FolderName(suite), "suite.json"]
    case CaseMarker(Project(project), caseId) => ["projects", FolderName(project), caseId, "test-case.json"]
    case CaseMarker(Suite(project, suite), caseId) =>
      ["projects", FolderName(project), FolderName(suite), caseId, "test-case.json"]
    case Revision(Project(project), caseId, version) =>
      ["projects", FolderName(project), caseId, "revisions", RevisionName(version)]
    case Revision(Suite(project, suite), caseId, version) =>
      ["projects", FolderName(project), FolderName(suite), caseId, "revisions", RevisionName(version)]
    case Document(project, resource, id) =>
      ["projects", FolderName(project), (match CollectionName(resource) case Some(name) => name case None => ""), id]
  }

  /** The identifiers an accepted address is made of. */
  predicate Accepted(a: Address) {
    match a
    case ProjectMarker(project) => Wire(project)
    case SuiteMarker(project, suite) => Wire(project) && Wire(suite)
    case CaseMarker(parent, caseId) => WireParent(parent) && ValidComponent(caseId)
    case Revision(parent, caseId, _) => WireParent(parent) && ValidComponent(caseId)
    case Document(project, resource, id) =>
      Wire(project) && CollectionName(resource).Some? && HasSuffix(id) && ValidComponent(id)
  }

  predicate Wire(id: string) { HasSuffix(id) && ValidComponent(FolderName(id)) }

  predicate WireParent(parent: Parent) {
    match parent
    case Project(id) => Wire(id)
    case Suite(project, suite) => Wire(project) && Wire(suite)
  }

  /** An address is accepted exactly when its identifiers are usable, and then its path is
      spelled from them. */
  lemma PathsAreSpelled(a: Address)
    ensures PathOf(a).Ok? <==> Accepted(a)
    ensures Accepted(a) ==> PathOf(a) == Ok(Components(a))
  {
    if a.CaseMarker? || a.Revision? {
      CasePathsAreSpelled(a);
    } else if Accepted(a) {
      assert PathOf(a).value == Components(a);
    }
  }

  lemma CasePathsAreSpelled(a: Address)
    requires a.CaseMarker? || a.Revision?
    ensures PathOf(a).Ok? <==> Accepted(a)
    ensures Accepted(a) ==> PathOf(a) == Ok(Components(a))
  {
    if Accepted(a) {
      var folder := if a.parent.Project? then ["projects", FolderName(a.parent.id)]
                    else ["projects", FolderName(a.parent.project), FolderName(a.parent.suite)];
      assert ParentDir(a.parent).value == folder;
      assert CaseDir(a.parent, a.caseId).value == folder + [a.caseId];
      assert PathOf(a).value == Components(a);
    }
  }

  lemma RevisionNameIsPlain(version: Version)
    ensures ValidComponent(RevisionName(version)) && RevisionName(version)[0] == 'v'
  {
    PowersOfTen();
    Length(version, 20);
    var name, digits := RevisionName(version), Digits(version);
    forall i | 0 <= i < |name| ensures name[i] != '/' && name[i] != '\\' && name[i] != '\0' {
      if 1 <= i <= |digits| {
        assert name[i] == digits[i - 1] && IsDigit(digits[i - 1]);
      } else if i > |digits| {
        assert name[i] == SUFFIX[i - 1 - |digits|];
      }
    }
  }

  lemma CollectionNamesArePlain(resource: Resource)
    ensures CollectionName(resource).Some? ==> ValidComponent(CollectionName(resource).value)
  {
  }

  /// The tree, spelled out
  /// ---------------------

  /** A name of one to 255 bytes that is neither of the two dots and holds no separator and no zero. */
  predicate PlainName(c: string) {
    && 1 <= |c| <= 255 && c != "." && c != ".."
    && forall i :: 0 <= i < |c| ==> c[i] != '/' && c[i] != '\\' && c[i] as int != 0
  }

  lemma PlainNamesAreValid(c: string)
    ensures ValidComponent(c) <==> PlainName(c)
  {
  }

  lemma WireIdsAreFolders(folder: string)
    ensures HasSuffix(folder + ".json") && FolderName(folder + ".json") == folder
    ensures Wire(folder + ".json") <==> PlainName(folder)
  {
    FolderNamesInvert("", folder);
    assert (folder + ".json")[|folder|..] == ".json";
    PlainNamesAreValid(folder);
  }

  function Usable(usable: bool, path: Path): Result<Path, PathError> {
    if usable then Ok(path) else Err(InvalidInput)
  }

  lemma RefusedOrSpelled(a: Address)
    ensures PathOf(a) == Usable(Accepted(a), Components(a))
  {
    PathsAreSpelled(a);
  }

  /** Projects and suites lie in folders named by their identifiers without the suffix, cases in folders of
      their own, and each holds its marker; a case holds its revisions. */
  lemma MarkersLieInFolders(p: string, s: string, c: string, version: Version)
    ensures PathOf(ProjectMarker(p + ".json")) == Usable(PlainName(p), ["projects", p, "project.json"])
    ensures PathOf(SuiteMarker(p + ".json", s + ".json")) == Usable(PlainName(p) && PlainName(s), ["projects", p, s, "suite.json"])
    ensures PathOf(CaseMarker(Project(p + ".json"), c)) == Usable(PlainName(p) && PlainName(c), ["projects", p, c, "test-case.json"])
    ensures PathOf(CaseMarker(Suite(p + ".json", s + ".json"), c))
         == Usable(PlainName(p) && PlainName(s) && PlainName(c), ["projects", p, s, c, "test-case.json"])
    ensures PathOf(Revision(Project(p + ".json"), c, version))
         == Usable(PlainName(p) && PlainName(c), ["projects", p, c, "revisions", "v" + Digits(version) + ".json"])
    ensures PathOf(Revision(Suite(p + ".json", s + ".json"), c, version))
         == Usable(PlainName(p) && PlainName(s) && PlainName(c), ["projects", p, s, c, "revisions", "v" + Digits(version) + ".json"])
  {
    hide PathOf, Wire, FolderName, HasSuffix, PlainName, ValidComponent, Digits;
    var project, suite := p + ".json", s + ".json";
    WireIdsAreFolders(p);
    WireIdsAreFolders(s);
    PlainNamesAreValid(c);
    RefusedOrSpelled(ProjectMarker(project));
    RefusedOrSpelled(SuiteMarker(project, suite));
    RefusedOrSpelled(CaseMarker(Project(project), c));
    RefusedOrSpelled(CaseMarker(Suite(project, suite), c));
    RefusedOrSpelled(Revision(Project(project), c, version));
    RefusedOrSpelled(Revision(Suite(project, suite), c, version));
  }

  /** The other documents lie in their project's collections, under their identifiers; what is not kept in a
      collection has no path there, and neither has an identifier without the suffix. */
  lemma DocumentsLieInCollections(p: string, id: string, resource: Resource)
    ensures PathOf(Document(p + ".json", resource, id))
         == Usable(PlainName(p) && PlainName(id) && HasSuffix(id) && resource in {Runs, Milestones, Configurations, Workflows},
                   ["projects", p,
                    (match resource
                     case Runs => "test_runs"
                     case Milestones => "milestones"
                     case Configurations => "configurations"
                     case Workflows => "workflows"
                     case _ => ""), id])
    ensures !HasSuffix(id) ==>
              PathOf(ProjectMarker(id)).Err? && PathOf(SuiteMarker(p, id)).Err? && PathOf(CaseMarker(Project(id), p)).Err?
  {
    hide PathOf, FolderName, HasSuffix, PlainName, ValidComponent;
    WireIdsAreFolders(p);
    PlainNamesAreValid(id);
    RefusedOrSpelled(Document(p + ".json", resource, id));
    RefusedOrSpelled(ProjectMarker(id));
    RefusedOrSpelled(SuiteMarker(p, id));
    RefusedOrSpelled(CaseMarker(Project(id), p));
  }

  /** The fixed names a path may hold. */
  predicate IsFixedName(c: string) {
    c == "projects" || c == "project.json" || c == "suite.json" || c == "test-case.json" || c == "revisions"
  }

  lemma FixedNamesArePlain(c: string)
    requires IsFixedName(c)
    ensures ValidComponent(c)
  {
  }

  /** Every component of an accepted address is a plain name, so no path leaves the data root. */
  lemma AcceptedPathsArePlain(a: Address, i: nat)
    requires PathOf(a).Ok? && i < |PathOf(a).value|
    ensures PathOf(a).value[0] == "projects" && |PathOf(a).value| >= 3
    ensures PlainName(PathOf(a).value[i])
  {
    PlainNamesAreValid(PathOf(a).value[i]);
    PathsAreSpelled(a);
    var c := Components(a)[i];
    if IsFixedName(c) {
      FixedNamesArePlain(c);
    }
    match a
    case Revision(_, _, version) =>
      RevisionNameIsPlain(version);
    case Document(_, resource, _) =>
      CollectionNamesArePlain(resource);
    case _ =>
  }

  /** Equal spellings of the same kind of address come from the same address. */
  lemma SameKindSameAddress(a: Address, b: Address)
    requires Accepted(a) && Accepted(b) && Components(a) == Components(b)
    requires Rank(a) == Rank(b)
    ensures a == b
  {
    var p, q := Components(a), Components(b);
    assert p[1] == q[1];
    assert p[2] == q[2] && p[|p| - 1] == q[|q| - 1];
    SuffixesCancel(ProjectIn(a), ProjectIn(b));
    if a.SuiteMarker? {
      SuffixesCancel(a.suite, b.suite);
    } else if a.CaseMarker? || a.Revision? {
      assert |p| > 4 ==> p[3] == q[3];
      if a.parent.Suite? && b.parent.Suite? {
        SuffixesCancel(a.parent.suite, b.parent.suite);
      }
      if a.Revision? {
        RevisionNamesDiffer(a.version, b.version);
      }
    } else if a.Document? {
      CollectionsDiffer(a.resource, b.resource);
    }
  }

  function ProjectIn(a: Address): string {
    match a
    case CaseMarker(parent, _) => ProjectOf(parent)
    case Revision(parent, _, _) => ProjectOf(parent)
    case _ => a.project
  }

  function Rank(a: Address): nat {
    match a
    case ProjectMarker(_) => 0
    case SuiteMarker(_, _) => 1
    case CaseMarker(_, _) => 2
    case Revision(_, _, _) => 3
    case Document(_, _, _) => 4
  }

  /** How many components a path has, and its last one, tell most kinds apart. */
  lemma EndsOf(a: Address)
    requires Accepted(a)
    ensures var p := Components(a);
            match a
            case ProjectMarker(_) => |p| == 3
            case SuiteMarker(_, _) => |p| == 4 && p[|p| - 1][0] == 's' && p[|p| - 1] == "suite.json"
            case CaseMarker(_, _) => 4 <= |p| <= 5 && |p[|p| - 1]| == 14 && p[|p| - 1][0] == 't' && p[|p| - 1] == "test-case.json"
            case Revision(_, _, _) => 5 <= |p| <= 6 && p[|p| - 1] != [] && p[|p| - 1][0] == 'v'
            case Document(_, _, id) => |p| == 4 && p[3] == id
  {
    match a
    case CaseMarker(Project(project), caseId) =>
    case CaseMarker(Suite(project, suite), caseId) =>
    case Revision(Project(project), caseId, version) =>
      RevisionNameIsPlain(version);
    case Revision(Suite(project, suite), caseId, version) =>
      RevisionNameIsPlain(version);
    case _ =>
  }

  /** Equal spellings of different kinds are a marker inside a collection and its document. */
  lemma DifferentKindsShadow(a: Address, b: Address)
    requires Accepted(a) && Accepted(b) && Components(a) == Components(b) && Rank(a) < Rank(b)
    ensures Shadows(a, b)
  {
    EndsOf(a);
    EndsOf(b);
    var p := Components(b);
    assert b.Document?;
    assert p[1] == Components(a)[1] && p[2] == Components(a)[2];
    assert a.SuiteMarker? || (a.CaseMarker? && a.parent.Project?);
    SuffixesCancel(ProjectIn(a), ProjectIn(b));
  }

  /** Two accepted addresses share a path exactly when they are the same address, or one is a
      suite or direct case in a collection's own folder and the other the document it shadows. */
  lemma PathsMeetExactlyInCollections(a: Address, b: Address)
    requires PathOf(a).Ok? && PathOf(b).Ok?
    ensures PathOf(a) == PathOf(b) <==> a == b || Shadows(a, b) || Shadows(b, a)
  {
    PathsAreSpelled(a);
    PathsAreSpelled(b);
    if Components(a) == Components(b) {
      if Rank(a) == Rank(b) {
        SameKindSameAddress(a, b);
      } else if Rank(a) < Rank(b) {
        DifferentKindsShadow(a, b);
      } else {
        DifferentKindsShadow(b, a);
      }
    }
  }

  /** With the reserved names refused, distinct addresses never share a path. */
  lemma DistinctAddressesHaveDistinctPaths(a: Address, b: Address)
    requires PathOf(a).Ok? && PathOf(b).Ok? && a != b
    requires !TakesReservedName(a) && !TakesReservedName(b)
    ensures PathOf(a) != PathOf(b)
  {
    PathsMeetExactlyInCollections(a, b);
  }

  /// Files in the way of directories
  /// -------------------------------

  /** The folder below the project that a deeper address passes through. */
  function FirstFolder(a: Address): Option<string> {
    match a
    case SuiteMarker(_, suite) => Some(FolderName(suite))
    case CaseMarker(Project(_), caseId) => Some(caseId)
    case CaseMarker(Suite(_, suite), _) => Some(FolderName(suite))
    case Revision(Project(_), caseId, _) => Some(caseId)
    case Revision(Suite(_, suite), _, _) => Some(FolderName(suite))
    case ProjectMarker(_) => None
    case Document(_, _, _) => None
  }

  /** The address is a case, or a revision of one, that a suite with this folder holds. */
  predicate IsCaseIn(b: Address, project: string, folder: string, caseId: string) {
    && (b.CaseMarker? || b.Revision?) && b.caseId == caseId
    && b.parent.Suite? && b.parent.project == project && FolderName(b.parent.suite) == folder
  }

  /** The file of `a` stands where the path of `b` needs a directory: a child of the project takes the
      name of its marker, or a case takes the name of a marker or document beside which its suite's
      folder lies. */
  predicate Blocks(a: Address, b: Address) {
    match a
    case ProjectMarker(project) => ProjectIn(b) == project && FirstFolder(b) == Some("project.json")
    case SuiteMarker(project, suite) => IsCaseIn(b, project, FolderName(suite), "suite.json")
    case CaseMarker(Project(project), caseId) => IsCaseIn(b, project, caseId, "test-case.json")
    case Document(project, resource, id) =>
      CollectionName(resource).Some? && IsCaseIn(b, project, CollectionName(resource).value, id)
    case CaseMarker(Suite(_, _), _) => false
    case Revision(_, _, _) => false
  }

  lemma SecondComponent(a: Address)
    requires Accepted(a)
    ensures |Components(a)| >= 3 && Components(a)[0] == "projects"
    ensures Components(a)[1] == FolderName(ProjectIn(a)) && HasSuffix(ProjectIn(a))
  {
  }

  lemma SameProject(a: Address, b: Address)
    requires Accepted(a) && Accepted(b)
    ensures Components(a)[1] == Components(b)[1] <==> ProjectIn(a) == ProjectIn(b)
  {
    hide Components, Accepted, FolderName, ProjectIn;
    SecondComponent(a);
    SecondComponent(b);
    if Components(a)[1] == Components(b)[1] {
      SuffixesCancel(ProjectIn(a), ProjectIn(b));
    }
  }

  /** What a path holds beyond its project. */
  lemma FurtherComponents(b: Address)
    requires Accepted(b)
    ensures var q := Components(b);
            && (FirstFolder(b).Some? ==> |q| > 3 && q[2] == FirstFolder(b).value)
            && (b.ProjectMarker? ==> |q| == 3)
            && (b.Document? ==> |q| == 4 && q[2] != "project.json")
            && (|q| > 4 ==> b.CaseMarker? || b.Revision?)
            && ((b.CaseMarker? || b.Revision?) && b.parent.Suite? ==>
                  |q| > 4 && q[2] == FolderName(b.parent.suite) && q[3] == b.caseId)
            && ((b.CaseMarker? || b.Revision?) && b.parent.Project? && |q| > 4 ==> |q| == 5 && q[3] == "revisions")
            && (|q| > 5 ==> |q| == 6 && q[4] == "revisions")
  {
    if b.Document? {
      assert CollectionName(b.resource).value[0] in "tmcw" && "project.json"[0] == 'p';
    }
  }

  lemma ProjectMarkerBlocks(a: Address, b: Address)
    requires Accepted(a) && Accepted(b) && a.ProjectMarker?
    ensures Components(a) < Components(b) <==> Blocks(a, b)
  {
    SameProject(a, b);
    SecondComponent(b);
    FurtherComponents(b);
    hide Accepted, FolderName;
    var p, q := Components(a), Components(b);
    assert p < q <==> |p| < |q| && p[1] == q[1] && p[2] == q[2];
  }

  lemma FourComponentsBlock(a: Address, b: Address)
    requires Accepted(a) && Accepted(b) && |Components(a)| == 4 && Components(a)[3] != "revisions"
    ensures Components(a) < Components(b) <==> IsCaseIn(b, ProjectIn(a), Components(a)[2], Components(a)[3])
  {
    hide Components, Accepted, FolderName;
    SameProject(a, b);
    SecondComponent(a);
    SecondComponent(b);
    FurtherComponents(b);
    var p, q := Components(a), Components(b);
    assert p < q <==> |q| > 4 && p[1] == q[1] && p[2] == q[2] && p[3] == q[3];
  }

  lemma FiveComponentsBlockNothing(a: Address, b: Address)
    requires Accepted(a) && Accepted(b) && |Components(a)| >= 5 && Components(a)[4] != "revisions"
    ensures !(Components(a) < Components(b))
  {
    FurtherComponents(a);
    FurtherComponents(b);
    hide Components, Accepted;
  }

  lemma LastComponents(a: Address)
    requires Accepted(a)
    ensures var p := Components(a);
            match a
            case ProjectMarker(_) => |p| == 3
            case SuiteMarker(_, suite) => |p| == 4 && p[2] == FolderName(suite) && p[3] == "suite.json" != "revisions"
            case CaseMarker(Project(_), caseId) => |p| == 4 && p[2] == caseId && p[3] == "test-case.json" != "revisions"
            case CaseMarker(Suite(_, _), _) => |p| == 5 && p[4] == "test-case.json" != "revisions"
            case Revision(Project(_), _, _) => |p| == 5 && p[4] != "revisions"
            case Revision(Suite(_, _), _, _) => |p| == 6
            case Document(_, resource, id) =>
              |p| == 4 && CollectionName(resource).Some? && p[2] == CollectionName(resource).value && p[3] == id != "revisions"
  {
    assert "suite.json"[0] == 's' && "test-case.json"[0] == 't' && "revisions"[0] == 'r';
    if a.Revision? {
      RevisionNameIsPlain(a.version);
    } else if a.Document? {
      assert "revisions"[|"revisions"| - 5..] == "sions" && "sions"[0] != SUFFIX[0];
    }
  }

  /** One accepted path lies on the way to another exactly when it blocks it. */
  lemma PrefixesBlockExactly(a: Address, b: Address)
    requires PathOf(a).Ok? && PathOf(b).Ok?
    ensures PathOf(a).value < PathOf(b).value <==> Blocks(a, b)
  {
    PathsAreSpelled(a);
    PathsAreSpelled(b);
    LastComponents(a);
    hide Components, Accepted, PathOf, FolderName, IsCaseIn, CollectionName;
    match a
    case ProjectMarker(_) =>
      ProjectMarkerBlocks(a, b);
    case SuiteMarker(_, _) =>
      FourComponentsBlock(a, b);
    case Document(_, _, _) =>
      FourComponentsBlock(a, b);
    case CaseMarker(Project(_), _) =>
      FourComponentsBlock(a, b);
    case CaseMarker(Suite(_, _), _) =>
      FiveComponentsBlockNothing(a, b);
    case Revision(Project(_), _, _) =>
      FiveComponentsBlockNothing(a, b);
    case Revision(Suite(_, _), _, _) =>
      FurtherComponents(b);
  }

  /** A case identifier without the suffix, below a folder not named like the project's marker, is never
      in the way of anything. */
  lemma PlainNamesAreNeverBlocked(a: Address, b: Address)
    requires PathOf(a).Ok? && PathOf(b).Ok?
    requires FirstFolder(b) != Some("project.json") && (b.CaseMarker? || b.Revision? ==> !HasSuffix(b.caseId))
    ensures !(PathOf(a).value < PathOf(b).value)
  {
    PrefixesBlockExactly(a, b);
    PathsAreSpelled(a);
    assert HasSuffix("suite.json") && HasSuffix("test-case.json");
  }
}
