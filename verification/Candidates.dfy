/** Where settings live: what a reset considers, and that nothing there is in anything's way. */
module Candidates {
  import opened Wrappers
  import opened FileTree
  import opened Sorting
  import opened DiskSteps
  import opened Retention
  import opened RunNames
  import opened Backups
  import opened Resets
  import opened Restores
  import opened RoundTrips

  datatype Provider = Claude | Codex | All

  const BACKUPS: Path := [".zirv", "backups", "ai-reset"]

  const CLAUDE_PROJECT: seq<Path> := [
    ["CLAUDE.md"], ["CLAUDE.local.md"],
    [".claude", "CLAUDE.md"], [".claude", "settings.json"], [".claude", "settings.local.json"],
    [".claude", "rules"], [".claude", "commands"], [".claude", "agents"], [".claude", "agent-memory"],
    [".claude", "skills"], [".claude", "plugins"], [".claude", "output-styles"],
    [".mcp.json"]
  ]

  const CODEX_PROJECT: seq<Path> := [
    ["AGENTS.md"], ["AGENTS.override.md"],
    [".codex", "config.toml"], [".codex", "hooks.json"], [".codex", "rules"], [".codex", "skills"],
    [".codex", "plugins"]
  ]

  const CLAUDE_GLOBAL: seq<Name> := [
    "settings.json", "CLAUDE.md", "rules", "commands", "agents", "agent-memory",
    "skills", "plugins", "output-styles", "keybindings.json", "themes"
  ]

  const CODEX_GLOBAL: seq<Name> := [
    "config.toml", "hooks.json", "AGENTS.md", "AGENTS.override.md", "rules", "skills", "plugins"
  ]

  const PROFILE := ".config.toml"

  function Joined(base: Path, rels: seq<Path>): (ps: seq<Path>)
    ensures |ps| == |rels| && forall i | 0 <= i < |ps| :: ps[i] == base + rels[i]
  {
    seq(|rels|, i requires 0 <= i < |rels| => base + rels[i])
  }

  function Singles(names: seq<Name>): (rels: seq<Path>)
    ensures |rels| == |names| && forall i | 0 <= i < |rels| :: rels[i] == [names[i]]
  {
    seq(|names|, i requires 0 <= i < |names| => [names[i]])
  }

  function EndsWith(s: string, end: string): bool {
    |end| <= |s| && s[|s| - |end|..] == end
  }

  /** The profiles among the names of a directory listing. */
  function Profiles(listing: seq<Name>): seq<Name> {
    if listing == [] then []
    else (if EndsWith(listing[0], PROFILE) then [listing[0]] else []) + Profiles(listing[1..])
  }

  function ProjectRels(provider: Provider): seq<Path> {
    match provider
    case Claude => CLAUDE_PROJECT
    case Codex => CODEX_PROJECT
    case All => []
  }

  function ProjectCandidates(provider: Provider, repo: Path): seq<Path> {
    Joined(repo, ProjectRels(provider))
  }

  /** `listing` is what the configuration directory holds. */
  function GlobalNames(provider: Provider, listing: seq<Name>, includeAuth: bool): seq<Name> {
    match provider
    case Claude => CLAUDE_GLOBAL + if includeAuth then [".credentials.json"] else []
    case Codex => CODEX_GLOBAL + Profiles(listing) + if includeAuth then ["auth.json"] else []
    case All => []
  }

  function GlobalCandidates(provider: Provider, base: Path, listing: seq<Name>, includeAuth: bool): seq<Path> {
    Joined(base, Singles(GlobalNames(provider, listing, includeAuth)))
  }

  // --------------------------------------------------------- plain names

  /** Not a name any staging sibling could have: those all end in `p`. */
  predicate PlainName(n: Name) {
    n != "" && n[|n| - 1] != 'p'
  }

  predicate Plain(rel: Path) {
    forall n | n in rel :: PlainName(n)
  }

  /** Distinct names right below the root, or right below one directory that is not itself listed. */
  ghost predicate Shallow(rels: seq<Path>, dir: Name) {
    && Distinct(rels)
    && forall i | 0 <= i < |rels| ::
         || (|rels[i]| == 1 && rels[i][0] != dir)
         || (|rels[i]| == 2 && rels[i][0] == dir)
  }

  lemma ShallowDisjoint(rels: seq<Path>, dir: Name)
    requires Shallow(rels, dir)
    ensures PairwiseDisjoint(rels)
  {
    forall i, j | 0 <= i < |rels| && 0 <= j < |rels| && i != j ensures Disjoint(rels[i], rels[j]) {
      var p, q := rels[i], rels[j];
      assert p != q;
      if |p| != |q| {
        assert p[0] != q[0];
      }
    }
  }

  /** Plain paths, none of which starts the way the backups do. */
  ghost predicate Tidy(rels: seq<Path>) {
    forall i | 0 <= i < |rels| :: Plain(rels[i]) && rels[i] != [] && rels[i][0] != BACKUPS[0]
  }

  lemma ClaudeProjectIsShallow()
    ensures Shallow(CLAUDE_PROJECT, ".claude")
  {
  }

  lemma ClaudeProjectIsTidy()
    ensures Tidy(CLAUDE_PROJECT)
  {
  }

  lemma CodexProjectIsShallow()
    ensures Shallow(CODEX_PROJECT, ".codex")
  {
  }

  lemma CodexProjectIsTidy()
    ensures Tidy(CODEX_PROJECT)
  {
  }

  lemma ProjectIsTidy(provider: Provider)
    ensures PairwiseDisjoint(ProjectRels(provider)) && Tidy(ProjectRels(provider))
  {
    match provider
    case Claude =>
      ClaudeProjectIsShallow();
      ClaudeProjectIsTidy();
      ShallowDisjoint(CLAUDE_PROJECT, ".claude");
    case Codex =>
      CodexProjectIsShallow();
      CodexProjectIsTidy();
      ShallowDisjoint(CODEX_PROJECT, ".codex");
    case All =>
  }

  lemma {:induction false} ProfileMembers(listing: seq<Name>)
    ensures forall n :: n in Profiles(listing) <==> n in listing && EndsWith(n, PROFILE)
    ensures Distinct(listing) ==> Distinct(Profiles(listing))
  {
    if listing != [] {
      ProfileMembers(listing[1..]);
      assert listing == [listing[0]] + listing[1..];
    }
  }

  lemma ClaudeGlobalDistinct()
    ensures Distinct(CLAUDE_GLOBAL)
  {
  }

  lemma ClaudeGlobalNoAuth()
    ensures ".credentials.json" !in CLAUDE_GLOBAL
  {
  }

  lemma ClaudeGlobalPlain()
    ensures PlainName(".credentials.json") && forall i | 0 <= i < |CLAUDE_GLOBAL| :: PlainName(CLAUDE_GLOBAL[i])
  {
  }

  lemma CodexGlobalDistinct()
    ensures Distinct(CODEX_GLOBAL) && "auth.json" !in CODEX_GLOBAL
  {
  }

  lemma CodexGlobalPlain()
    ensures PlainName("auth.json") && forall i | 0 <= i < |CODEX_GLOBAL| :: PlainName(CODEX_GLOBAL[i])
  {
  }

  lemma CodexGlobalNoProfiles()
    ensures !EndsWith("auth.json", PROFILE)
    ensures forall n | n in CODEX_GLOBAL :: !EndsWith(n, PROFILE)
  {
    assert |PROFILE| == 12 && |"config.toml"| == 11;
    assert PROFILE[11] == 'l';
  }

  lemma ProfileIsPlain(n: Name)
    requires EndsWith(n, PROFILE)
    ensures PlainName(n)
  {
  }

  lemma FixedNamesAreNoCredentials()
    ensures forall n | n in CLAUDE_GLOBAL || n in CODEX_GLOBAL :: n !in CREDENTIALS
  {
  }

  lemma ProfilesAreNoCredentials(n: Name)
    requires EndsWith(n, PROFILE)
    ensures n !in CREDENTIALS
  {
    assert PROFILE[|PROFILE| - 1] == 'l' && n[|n| - 1] == 'l';
  }

  /** Credentials are considered only when asked for, and then exactly one comes last. */
  lemma CredentialsOnlyWhenAsked(provider: Provider, base: Path, listing: seq<Name>, includeAuth: bool)
    ensures var all := GlobalCandidates(provider, base, listing, includeAuth);
            var plain := GlobalCandidates(provider, base, listing, false);
            && (forall p | p in plain :: !IsAuth(p))
            && (if includeAuth && provider != All
                then all != [] && IsAuth(all[|all| - 1]) && all[..|all| - 1] == plain
                else all == plain)
  {
    FixedNamesAreNoCredentials();
    ProfileMembers(listing);
    var plain := GlobalNames(provider, listing, false);
    forall n | n in plain ensures n !in CREDENTIALS {
      if n in Profiles(listing) {
        ProfilesAreNoCredentials(n);
      }
    }
    forall i | 0 <= i < |plain| ensures !IsAuth(base + [plain[i]]) {
      assert plain[i] in plain;
    }
  }

  lemma GlobalNamesDiffer(provider: Provider, listing: seq<Name>, includeAuth: bool)
    requires Distinct(listing)
    ensures Distinct(GlobalNames(provider, listing, includeAuth))
    ensures forall n | n in GlobalNames(provider, listing, includeAuth) :: PlainName(n)
  {
    match provider
    case Claude =>
      ClaudeGlobalDistinct();
      ClaudeGlobalNoAuth();
      ClaudeGlobalPlain();
      Together(CLAUDE_GLOBAL, if includeAuth then [".credentials.json"] else []);
    case Codex =>
      CodexGlobalDistinct();
      CodexGlobalPlain();
      CodexGlobalNoProfiles();
      WithProfiles(CODEX_GLOBAL, listing, "auth.json", includeAuth);
    case All =>
  }

  lemma WithProfiles(fixed: seq<Name>, listing: seq<Name>, auth: Name, includeAuth: bool)
    requires Distinct(listing) && Distinct(fixed) && auth !in fixed
    requires PlainName(auth) && !EndsWith(auth, PROFILE)
    requires forall n | n in fixed :: PlainName(n) && !EndsWith(n, PROFILE)
    ensures var names := fixed + Profiles(listing) + if includeAuth then [auth] else [];
            Distinct(names) && forall n | n in names :: PlainName(n)
  {
    ProfileMembers(listing);
    forall n | n in Profiles(listing) ensures PlainName(n) {
      ProfileIsPlain(n);
    }
    Together(fixed, Profiles(listing));
    Together(fixed + Profiles(listing), if includeAuth then [auth] else []);
  }

  lemma Together(a: seq<Name>, b: seq<Name>)
    requires Distinct(a) && Distinct(b) && forall n | n in a :: n !in b
    ensures Distinct(a + b)
  {
    forall i, j | 0 <= i < j < |a + b| ensures (a + b)[i] != (a + b)[j] {
      if i < |a| <= j {
        assert a[i] in a && b[j - |a|] in b;
      }
    }
  }

  // ------------------------------------------------------------- layout

  lemma StagedIsNotPlain(rel: Path)
    requires rel != []
    ensures !Plain(StagingPath(rel))
  {
    var staged := StagingPath(rel);
    var n := "." + rel[|rel| - 1] + ".zirv-restore-tmp";
    assert n in staged && n[|n| - 1] == 'p';
  }

  lemma PrefixOfPlain(p: Path, q: Path)
    requires Plain(q)
    ensures p <= q ==> Plain(p)
  {
  }

  /** A plain path apart from another is apart from its staging sibling. */
  lemma PlainApartFromStaged(base: Path, p: Path, q: Path)
    requires p != [] && Plain(q) && Disjoint(p, q)
    ensures Disjoint(StagingPath(base + p), base + q)
  {
    var staged := StagingPath(p);
    assert StagingPath(base + p) == base + staged;
    StagedIsNotPlain(p);
    PrefixOfPlain(staged, q);
    DisjointUnder(base, staged, q);
  }

  /** Sources below a base, by plain and disjoint paths, and the backups no nearer. */
  ghost predicate PlainBelow(base: Path, rels: seq<Path>) {
    PairwiseDisjoint(rels) && forall i | 0 <= i < |rels| :: rels[i] != [] && Plain(rels[i])
  }

  /** Backups beside the candidates' base, or below it by a plain path apart from them all. */
  ghost predicate BackupsApart(base: Path, rels: seq<Path>, backupRoot: Path) {
    || Disjoint(base, backupRoot)
    || exists b: Path :: backupRoot == base + b && Plain(b) && forall i | 0 <= i < |rels| :: Disjoint(rels[i], b)
  }

  lemma PlainIsWellPlaced(base: Path, rels: seq<Path>, backupRoot: Path)
    requires PlainBelow(base, rels) && BackupsApart(base, rels, backupRoot)
    ensures WellPlaced(base, backupRoot, Joined(base, rels))
  {
    var ps := Joined(base, rels);
    forall i, j | 0 <= i < |ps| && 0 <= j < |ps| && i != j ensures Disjoint(ps[i], ps[j]) {
      DisjointUnder(base, rels[i], rels[j]);
    }
    forall i | 0 <= i < |ps| ensures Disjoint(backupRoot, ps[i]) {
      ApartFromBackups(base, rels, backupRoot, i);
    }
  }

  lemma ApartFromBackups(base: Path, rels: seq<Path>, backupRoot: Path, i: nat)
    requires PlainBelow(base, rels) && BackupsApart(base, rels, backupRoot) && i < |rels|
    ensures Disjoint(backupRoot, base + rels[i]) && Disjoint(backupRoot, StagingPath(base + rels[i]))
  {
    if Disjoint(base, backupRoot) {
      DisjointBelow(base, rels[i], backupRoot);
      DisjointBelow(base, StagingPath(rels[i]), backupRoot);
      assert StagingPath(base + rels[i]) == base + StagingPath(rels[i]);
    } else {
      var b: Path :| backupRoot == base + b && Plain(b) && forall j | 0 <= j < |rels| :: Disjoint(rels[j], b);
      DisjointUnder(base, b, rels[i]);
      PlainApartFromStaged(base, rels[i], b);
    }
  }

  /** Whatever of the candidates a run records, a restore of it finds the layout it needs. */
  lemma PlainRestoreLayout(base: Path, rels: seq<Path>, backupRoot: Path, id: RunId, t: Node)
    requires PlainBelow(base, rels) && BackupsApart(base, rels, backupRoot)
    ensures RestoreLayout(base, backupRoot, backupRoot + [id], ResetRows(t, base, Joined(base, rels)))
  {
    var candidates := Joined(base, rels);
    var existing, rows := Existing(t, candidates), ResetRows(t, base, candidates);
    PlainIsWellPlaced(base, rels, backupRoot);
    ExistingWellPlaced(t, base, backupRoot, candidates);
    ExistingMembers(t, candidates);
    forall i | 0 <= i < |rows| ensures Placed(base, backupRoot, backupRoot + [id], rows[i]) {
      assert existing[i] in candidates;
      var k :| 0 <= k < |candidates| && candidates[k] == existing[i];
      ApartFromBackups(base, rels, backupRoot, k);
      DisjointBelow(backupRoot, [id], existing[i]);
      DisjointBelow(backupRoot, [id], StagingPath(existing[i]));
    }
    forall i, j | 0 <= i < j < |rows| ensures Separate(rows[i], rows[j]) {
      assert existing[i] in candidates && existing[j] in candidates;
      var k :| 0 <= k < |candidates| && candidates[k] == existing[i];
      var l :| 0 <= l < |candidates| && candidates[l] == existing[j];
      DisjointUnder(base, rels[k], rels[l]);
      PlainApartFromStaged(base, rels[k], rels[l]);
      PlainApartFromStaged(base, rels[l], rels[k]);
    }
  }

  lemma TidyLayout(rels: seq<Path>, repo: Path, id: RunId, t: Node)
    requires PairwiseDisjoint(rels) && Tidy(rels)
    ensures WellPlaced(repo, repo + BACKUPS, Joined(repo, rels))
    ensures RestoreLayout(repo, repo + BACKUPS, repo + BACKUPS + [id], ResetRows(t, repo, Joined(repo, rels)))
  {
    assert Plain(BACKUPS);
    PlainIsWellPlaced(repo, rels, repo + BACKUPS);
    PlainRestoreLayout(repo, rels, repo + BACKUPS, id, t);
  }

  /** A project's settings never overlap one another, the runs, or anyone's staging sibling. */
  lemma ProjectLayout(provider: Provider, repo: Path, id: RunId, t: Node)
    ensures WellPlaced(repo, repo + BACKUPS, ProjectCandidates(provider, repo))
    ensures RestoreLayout(repo, repo + BACKUPS, repo + BACKUPS + [id],
                          ResetRows(t, repo, ProjectCandidates(provider, repo)))
  {
    ProjectIsTidy(provider);
    TidyLayout(ProjectRels(provider), repo, id, t);
  }

  /** Nor do the settings of a user, given a configuration directory clear of the runs. */
  lemma GlobalLayout(
    provider: Provider, base: Path, listing: seq<Name>, includeAuth: bool, backupRoot: Path, id: RunId, t: Node
  )
    requires Distinct(listing) && Disjoint(base, backupRoot)
    ensures var candidates := GlobalCandidates(provider, base, listing, includeAuth);
            && WellPlaced(base, backupRoot, candidates)
            && RestoreLayout(base, backupRoot, backupRoot + [id], ResetRows(t, base, candidates))
  {
    var names := GlobalNames(provider, listing, includeAuth);
    var rels := Singles(names);
    GlobalNamesDiffer(provider, listing, includeAuth);
    forall i, j | 0 <= i < |rels| && 0 <= j < |rels| && i != j ensures Disjoint(rels[i], rels[j]) {
      SiblingsDisjoint([], names[i], names[j]);
      assert [] + [names[i]] == rels[i] && [] + [names[j]] == rels[j];
    }
    forall i | 0 <= i < |rels| ensures Plain(rels[i]) {
      assert names[i] in names;
    }
    PlainIsWellPlaced(base, rels, backupRoot);
    PlainRestoreLayout(base, rels, backupRoot, id, t);
  }

  /**
   A project reset, then a restore of the run it wrote: with nothing harmful
   staged and the new run safe from pruning, all is given back. On a calm disk
   nothing need be assumed of staging siblings, and only a link in a candidate
   or a blocked way to the run can stop it.
   */
  method ResetProjectThenRestore(
    disk: Disk, provider: Provider, repo: Path, now: nat, later: nat, slug: string, keep: nat
  ) returns (reset: Result<nat, Failure>, restored: Result<int, Failure>, ghost mid: Node)
    requires disk.Valid() && keep >= 1
    requires disk.calm || NothingHarmful(disk.root, ResetRows(disk.root, repo, ProjectCandidates(provider, repo)))
    requires NewRunIsSafe(disk.root, repo + BACKUPS, now, slug, keep, {})
    modifies disk
    ensures var candidates := ProjectCandidates(provider, repo);
            var rows := ResetRows(old(disk.root), repo, candidates);
            reset.Ok? && restored.Ok? && Existing(old(disk.root), candidates) != [] &&
            !Exists(mid, repo + BACKUPS + [UniqueRunId(mid, repo + BACKUPS, later, slug)]) ==>
              RoundTripped(old(disk.root), disk.root, repo + BACKUPS, rows, true)
    ensures FewEntries(old(disk.root), repo + BACKUPS) ==>
              !Exists(mid, repo + BACKUPS + [UniqueRunId(mid, repo + BACKUPS, later, slug)])
    ensures var existing := Existing(old(disk.root), ProjectCandidates(provider, repo));
            var rows := ResetRows(old(disk.root), repo, ProjectCandidates(provider, repo));
            var id := UniqueRunId(old(disk.root), repo + BACKUPS, now, slug);
            disk.calm && existing != [] && CanReset(old(disk.root), existing, repo + BACKUPS, now, slug) &&
            RoomForNext(old(disk.root), repo + BACKUPS, id, later, slug) ==>
              reset.Ok? && restored.Ok? && RoundTripped(old(disk.root), disk.root, repo + BACKUPS, rows, true)
  {
    var candidates := ProjectCandidates(provider, repo);
    ProjectLayout(provider, repo, UniqueRunId(disk.root, repo + BACKUPS, now, slug), disk.root);
    reset, restored, mid := ResetThenRestore(disk, repo, candidates, repo + BACKUPS, true, now, later, slug, keep);
  }
}
