/** The policy engine (src/codex_agent/policy/engine.py): three validators over
    a validation context, their concatenation, and two queries over the
    resulting violations. Regular-expression search, `Path.match` globbing and
    `Path` normalisation are foreign code and enter as parameters. */
module Policy {
  import opened Outcomes
  import opened Seqs
  import opened PyDict
  import opened Models

  // ---------------------------------------------------------------------------
  // Configuration, context and foreign code
  // ---------------------------------------------------------------------------

  datatype SecurityConfig = SecurityConfig(secretScanning: bool, secretPatterns: seq<string>)

  datatype QualityConfig = QualityConfig(coverageEnabled: bool, minimumCoverage: int, coverageBlocking: bool)

  datatype SafetyConfig = SafetyConfig(maxFiles: int, maxDiffLines: int, prohibitedPaths: seq<string>)

  datatype PolicyConfig = PolicyConfig(security: SecurityConfig, quality: QualityConfig, safety: SafetyConfig)

  /** The configuration's shipped defaults (src/codex_agent/core/config.py). */
  function DefaultConfig(): PolicyConfig
  {
    PolicyConfig(
      SecurityConfig(true, [@"(?i)api[_-]?key", @"(?i)password\s*=", @"(?i)secret\s*=", @"(?i)token\s*="]),
      QualityConfig(true, 80, false),
      SafetyConfig(10, 500, [".env", "secrets/", "*.pem", "*.key"]))
  }

  /** The foreign operations the engine calls:
      `findAll(pattern, text)` is the text of each `re.finditer` match, in order;
      `globMatch(path, pattern)` is `Path(path).match(pattern)`;
      `normalize(p)` is `str(Path(p))`. */
  datatype Foreign = Foreign(
    findAll: (string, string) -> seq<string>,
    globMatch: (string, string) -> bool,
    normalize: string -> string)

  /** The validation context; an absent key falls back to the default the
      engine reads it with. */
  datatype Context = Context(
    testCoverage: Option<int>,
    modifiedFiles: Option<seq<string>>,
    diffLines: Option<int>,
    filesContent: Option<Dict<string>>)

  function Coverage(ctx: Context): int
  {
    if ctx.testCoverage.Some? then ctx.testCoverage.value else 0
  }

  function ModifiedFiles(ctx: Context): seq<string>
  {
    if ctx.modifiedFiles.Some? then ctx.modifiedFiles.value else []
  }

  function DiffLines(ctx: Context): int
  {
    if ctx.diffLines.Some? then ctx.diffLines.value else 0
  }

  function FilesContent(ctx: Context): Dict<string>
  {
    if ctx.filesContent.Some? then ctx.filesContent.value else PyDict.Empty()
  }

  // ---------------------------------------------------------------------------
  // Security
  // ---------------------------------------------------------------------------

  function SecretViolation(file: string, pattern: string, secret: string): PolicyViolation
  {
    DefaultViolation(PolicyType.Security, "secret_scanning", Critical, SecretFound(file, pattern, secret))
  }

  /** `v` reports a match that `pattern` of `patterns` really has in the
      content of a scanned file. */
  predicate SecretFinding(v: PolicyViolation, files: map<string, string>, patterns: seq<string>, f: Foreign)
  {
    && v.detail.SecretFound?
    && v == SecretViolation(v.detail.file, v.detail.pattern, v.detail.secret)
    && v.detail.file in files
    && v.detail.pattern in patterns
    && v.detail.secret in f.findAll(v.detail.pattern, files[v.detail.file])
  }

  /** One violation per match, in match order. */
  function MatchViolations(file: string, pattern: string, matches: seq<string>): (r: seq<PolicyViolation>)
    ensures |r| == |matches|
    ensures forall i :: 0 <= i < |r| ==> r[i] == SecretViolation(file, pattern, matches[i])
  {
    seq(|matches|, i requires 0 <= i < |matches| => SecretViolation(file, pattern, matches[i]))
  }

  /** The scan of one file, pattern by pattern. */
  function ScanFile(file: string, content: string, patterns: seq<string>, f: Foreign): (r: seq<PolicyViolation>)
    ensures forall v :: v in r ==> SecretFinding(v, map[file := content], patterns, f)
    ensures forall p, s :: p in patterns && s in f.findAll(p, content) ==> SecretViolation(file, p, s) in r
  {
    if patterns == [] then []
    else
      var here := MatchViolations(file, patterns[0], f.findAll(patterns[0], content));
      var rest := ScanFile(file, content, patterns[1..], f);
      assert forall s :: s in f.findAll(patterns[0], content) ==> SecretViolation(file, patterns[0], s) in here by {
        forall s | s in f.findAll(patterns[0], content)
          ensures SecretViolation(file, patterns[0], s) in here {
          var i :| 0 <= i < |f.findAll(patterns[0], content)| && f.findAll(patterns[0], content)[i] == s;
          assert here[i] == SecretViolation(file, patterns[0], s);
        }
      }
      here + rest
  }

  /** The scan of every file of `keys`, in that order. */
  function ScanFiles(keys: seq<string>, files: map<string, string>, patterns: seq<string>, f: Foreign): (r: seq<PolicyViolation>)
    requires forall k :: k in keys ==> k in files
    ensures forall v :: v in r ==> SecretFinding(v, files, patterns, f)
    ensures forall k, p, s :: k in keys && p in patterns && s in f.findAll(p, files[k]) ==> SecretViolation(k, p, s) in r
  {
    if keys == [] then []
    else
      var here := ScanFile(keys[0], files[keys[0]], patterns, f);
      assert forall v :: v in here ==> SecretFinding(v, files, patterns, f) by {
        forall v | v in here ensures SecretFinding(v, files, patterns, f) {
          assert SecretFinding(v, map[keys[0] := files[keys[0]]], patterns, f);
        }
      }
      here + ScanFiles(keys[1..], files, patterns, f)
  }

  /** `validate_security`: the secret scan when scanning is on, and nothing
      otherwise. */
  function ValidateSecurity(cfg: SecurityConfig, ctx: Context, f: Foreign): (r: seq<PolicyViolation>)
    ensures !cfg.secretScanning ==> r == []
    ensures forall v :: v in r ==> SecretFinding(v, FilesContent(ctx).values, cfg.secretPatterns, f)
    ensures cfg.secretScanning ==>
      forall k, p, s :: k in FilesContent(ctx).values && p in cfg.secretPatterns && s in f.findAll(p, FilesContent(ctx).values[k])
        ==> SecretViolation(k, p, s) in r
  {
    if cfg.secretScanning then
      var files := FilesContent(ctx);
      ScanFiles(files.keys, files.values, cfg.secretPatterns, f)
    else []
  }

  // ---------------------------------------------------------------------------
  // Quality
  // ---------------------------------------------------------------------------

  /** `validate_quality`: one coverage violation exactly when coverage checks
      are on and the coverage is below the minimum. It blocks as configured
      and is an ERROR when it blocks, a WARNING otherwise. */
  function ValidateQuality(cfg: QualityConfig, ctx: Context): (r: seq<PolicyViolation>)
    ensures |r| <= 1
    ensures |r| == 1 <==> cfg.coverageEnabled && Coverage(ctx) < cfg.minimumCoverage
    ensures |r| == 1 ==>
      && r[0].policyType == Quality
      && r[0].policyName == "test_coverage"
      && r[0].blocking == cfg.coverageBlocking
      && (r[0].severity == Error <==> cfg.coverageBlocking)
      && (r[0].severity == Warning <==> !cfg.coverageBlocking)
      && r[0].detail == CoverageBelow(Coverage(ctx), cfg.minimumCoverage)
  {
    if cfg.coverageEnabled && Coverage(ctx) < cfg.minimumCoverage then
      [PolicyViolation(Quality, "test_coverage", if cfg.coverageBlocking then Error else Warning,
                       CoverageBelow(Coverage(ctx), cfg.minimumCoverage), cfg.coverageBlocking)]
    else []
  }

  // ---------------------------------------------------------------------------
  // Safety
  // ---------------------------------------------------------------------------

  /** `p` occurs in `s` starting at index `i`. */
  predicate OccursAt(s: string, p: string, i: int)
  {
    0 <= i <= |s| - |p| && s[i..i + |p|] == p
  }

  /** Python's `p in s` on strings. */
  function Contains(s: string, p: string): (r: bool)
    ensures r <==> exists i :: OccursAt(s, p, i)
    decreases |s|
  {
    if |p| > |s| then false
    else if s[..|p|] == p then assert OccursAt(s, p, 0); true
    else
      ContainsShift(s, p);
      Contains(s[1..], p)
  }

  /** The occurrences of `p` in `s[1..]` are those in `s` moved one to the left. */
  lemma ContainsShift(s: string, p: string)
    requires |p| <= |s| && s[..|p|] != p
    ensures (exists i :: OccursAt(s, p, i)) <==> (exists i :: OccursAt(s[1..], p, i))
  {
    if exists i :: OccursAt(s, p, i) {
      var i :| OccursAt(s, p, i);
      assert i != 0;
      assert OccursAt(s[1..], p, i - 1);
    }
    if exists i :: OccursAt(s[1..], p, i) {
      var i :| OccursAt(s[1..], p, i);
      assert s[1..][i..i + |p|] == s[i + 1..i + 1 + |p|];
      assert OccursAt(s, p, i + 1);
    }
  }

  /** Whether one prohibited-path pattern catches a normalised path: a pattern
      with `*` is a glob, any other pattern matches as a substring. */
  function PatternCatches(path: string, pattern: string, f: Foreign): bool
  {
    if '*' in pattern then f.globMatch(path, pattern) else Contains(path, pattern)
  }

  /** The index of the first pattern that catches `path`, if any. */
  function FirstCatch(path: string, patterns: seq<string>, f: Foreign): (r: Option<nat>)
    ensures r.Some? ==> r.value < |patterns| && PatternCatches(path, patterns[r.value], f)
    ensures r.Some? ==> forall j :: 0 <= j < r.value ==> !PatternCatches(path, patterns[j], f)
    ensures r.None? ==> forall j :: 0 <= j < |patterns| ==> !PatternCatches(path, patterns[j], f)
  {
    if patterns == [] then None
    else if PatternCatches(path, patterns[0], f) then Some(0)
    else match FirstCatch(path, patterns[1..], f)
      case None => None
      case Some(i) => Some(i + 1)
  }

  /** `_is_prohibited_path`: some pattern catches the normalised path. */
  function IsProhibitedPath(file: string, patterns: seq<string>, f: Foreign): (r: bool)
    ensures r <==> exists i :: 0 <= i < |patterns| && PatternCatches(f.normalize(file), patterns[i], f)
  {
    FirstCatch(f.normalize(file), patterns, f).Some?
  }

  /** How many entries of `files` are prohibited (duplicates counted). */
  function CountProhibited(files: seq<string>, patterns: seq<string>, f: Foreign): nat
  {
    if files == [] then 0
    else (if IsProhibitedPath(files[0], patterns, f) then 1 else 0) + CountProhibited(files[1..], patterns, f)
  }

  /** The prohibited entries of `files`, in file order. */
  function ProhibitedFiles(files: seq<string>, patterns: seq<string>, f: Foreign): (r: seq<string>)
    ensures Sublist(r, files)
    ensures forall i :: 0 <= i < |r| ==> IsProhibitedPath(r[i], patterns, f)
    ensures |r| == CountProhibited(files, patterns, f)
    ensures forall x :: x in files && IsProhibitedPath(x, patterns, f) ==> x in r
  {
    if files == [] then []
    else
      var rest := ProhibitedFiles(files[1..], patterns, f);
      if IsProhibitedPath(files[0], patterns, f) then
        assert ([files[0]] + rest)[1..] == rest;
        [files[0]] + rest
      else rest
  }

  function ProhibitedViolation(file: string): PolicyViolation
  {
    DefaultViolation(Safety, "prohibited_paths", Critical, ProhibitedFile(file))
  }

  function AsViolations(files: seq<string>): (r: seq<PolicyViolation>)
    ensures |r| == |files|
    ensures forall i :: 0 <= i < |r| ==> r[i] == ProhibitedViolation(files[i])
    ensures forall v :: v in r ==>
      v.detail.ProhibitedFile? && v.severity == Critical && v.blocking && v.policyType == Safety
  {
    if files == [] then [] else [ProhibitedViolation(files[0])] + AsViolations(files[1..])
  }

  /** The files named by the prohibited-path violations of `vs`, in order. */
  function ProhibitedFilesIn(vs: seq<PolicyViolation>): seq<string>
  {
    if vs == [] then []
    else (if vs[0].detail.ProhibitedFile? then [vs[0].detail.file] else []) + ProhibitedFilesIn(vs[1..])
  }

  lemma {:induction false} ProhibitedFilesInAppend(a: seq<PolicyViolation>, b: seq<PolicyViolation>)
    ensures ProhibitedFilesIn(a + b) == ProhibitedFilesIn(a) + ProhibitedFilesIn(b)
  {
    if a != [] {
      var head := if a[0].detail.ProhibitedFile? then [a[0].detail.file] else [];
      assert (a + b)[0] == a[0] && (a + b)[1..] == a[1..] + b;
      ProhibitedFilesInAppend(a[1..], b);
      calc {
        ProhibitedFilesIn(a + b);
        head + ProhibitedFilesIn(a[1..] + b);
        head + (ProhibitedFilesIn(a[1..]) + ProhibitedFilesIn(b));
        (head + ProhibitedFilesIn(a[1..])) + ProhibitedFilesIn(b);
        ProhibitedFilesIn(a) + ProhibitedFilesIn(b);
      }
    } else {
      assert a + b == b;
    }
  }

  lemma {:induction false} ProhibitedFilesOfViolations(files: seq<string>)
    ensures ProhibitedFilesIn(AsViolations(files)) == files
  {
    if files != [] {
      ProhibitedFilesOfViolations(files[1..]);
    }
  }

  function FileCountViolation(count: nat, max: int): PolicyViolation
  {
    DefaultViolation(Safety, "max_files_per_task", Error, TooManyFiles(count, max))
  }

  function DiffSizeViolation(lines: int, max: int): PolicyViolation
  {
    DefaultViolation(Safety, "max_diff_lines", Error, DiffTooLarge(lines, max))
  }

  /** The two size limits; both are inclusive. */
  function LimitViolations(count: nat, lines: int, cfg: SafetyConfig): (r: seq<PolicyViolation>)
    ensures forall v :: v in r ==> v.policyType == Safety && v.blocking && v.severity == Error
    ensures ProhibitedFilesIn(r) == []
    ensures FileCountViolation(count, cfg.maxFiles) in r <==> count > cfg.maxFiles
    ensures (exists v :: v in r && v.detail.TooManyFiles?) <==> count > cfg.maxFiles
    ensures DiffSizeViolation(lines, cfg.maxDiffLines) in r <==> lines > cfg.maxDiffLines
    ensures (exists v :: v in r && v.detail.DiffTooLarge?) <==> lines > cfg.maxDiffLines
  {
    var tooMany := if count > cfg.maxFiles then [FileCountViolation(count, cfg.maxFiles)] else [];
    var tooLarge := if lines > cfg.maxDiffLines then [DiffSizeViolation(lines, cfg.maxDiffLines)] else [];
    ProhibitedFilesInAppend(tooMany, tooLarge);
    tooMany + tooLarge
  }

  /** `validate_safety`: the size limits, then one violation per prohibited
      modified file, in file order. Every safety violation blocks. */
  function ValidateSafety(cfg: SafetyConfig, ctx: Context, f: Foreign): (r: seq<PolicyViolation>)
    ensures forall v :: v in r ==> v.policyType == Safety && v.blocking
    ensures forall v :: v in r ==> v.severity == (if v.detail.ProhibitedFile? then Critical else Error)
    ensures FileCountViolation(|ModifiedFiles(ctx)|, cfg.maxFiles) in r <==> |ModifiedFiles(ctx)| > cfg.maxFiles
    ensures (exists v :: v in r && v.detail.TooManyFiles?) <==> |ModifiedFiles(ctx)| > cfg.maxFiles
    ensures DiffSizeViolation(DiffLines(ctx), cfg.maxDiffLines) in r <==> DiffLines(ctx) > cfg.maxDiffLines
    ensures (exists v :: v in r && v.detail.DiffTooLarge?) <==> DiffLines(ctx) > cfg.maxDiffLines
    ensures ProhibitedFilesIn(r) == ProhibitedFiles(ModifiedFiles(ctx), cfg.prohibitedPaths, f)
  {
    var limits := LimitViolations(|ModifiedFiles(ctx)|, DiffLines(ctx), cfg);
    var banned := AsViolations(ProhibitedFiles(ModifiedFiles(ctx), cfg.prohibitedPaths, f));
    ProhibitedFilesInAppend(limits, banned);
    ProhibitedFilesOfViolations(ProhibitedFiles(ModifiedFiles(ctx), cfg.prohibitedPaths, f));
    limits + banned
  }

  // ---------------------------------------------------------------------------
  // All validators and the queries over their violations
  // ---------------------------------------------------------------------------

  /** `validate_all`: security, then quality, then safety. */
  function ValidateAll(cfg: PolicyConfig, ctx: Context, f: Foreign): (r: seq<PolicyViolation>)
    ensures |r| == |ValidateSecurity(cfg.security, ctx, f)| + |ValidateQuality(cfg.quality, ctx)| + |ValidateSafety(cfg.safety, ctx, f)|
    ensures forall v :: v in r <==>
      v in ValidateSecurity(cfg.security, ctx, f) || v in ValidateQuality(cfg.quality, ctx) || v in ValidateSafety(cfg.safety, ctx, f)
  {
    ValidateSecurity(cfg.security, ctx, f) + ValidateQuality(cfg.quality, ctx) + ValidateSafety(cfg.safety, ctx, f)
  }

  /** `is_blocking`: some violation blocks; never on an empty list. */
  function IsBlocking(vs: seq<PolicyViolation>): (r: bool)
    ensures r <==> exists i :: 0 <= i < |vs| && vs[i].blocking
  {
    if vs == [] then false
    else
      assert forall i :: 1 <= i < |vs| ==> vs[i] == vs[1..][i - 1];
      vs[0].blocking || IsBlocking(vs[1..])
  }

  /** The `severity_order` rank. */
  function Rank(s: PolicySeverity): nat
  {
    match s
    case Info => 0
    case Warning => 1
    case Error => 2
    case Critical => 3
  }

  predicate Reaches(v: PolicyViolation, minSeverity: PolicySeverity)
  {
    Rank(v.severity) >= Rank(minSeverity)
  }

  /** How many of `vs` reach the minimum severity (duplicates counted). */
  function CountReaching(vs: seq<PolicyViolation>, minSeverity: PolicySeverity): nat
  {
    if vs == [] then 0
    else (if Reaches(vs[0], minSeverity) then 1 else 0) + CountReaching(vs[1..], minSeverity)
  }

  /** `get_by_severity`: the violations at or above the minimum rank, in their
      original order; together the first three clauses pin the result down. */
  function GetBySeverity(vs: seq<PolicyViolation>, minSeverity: PolicySeverity): (r: seq<PolicyViolation>)
    ensures Sublist(r, vs)
    ensures forall i :: 0 <= i < |r| ==> Reaches(r[i], minSeverity)
    ensures |r| == CountReaching(vs, minSeverity)
    ensures forall v :: v in r <==> v in vs && Reaches(v, minSeverity)
  {
    if vs == [] then []
    else
      var rest := GetBySeverity(vs[1..], minSeverity);
      SublistMembers(rest, vs[1..]);
      assert forall v :: v in vs <==> v == vs[0] || v in vs[1..];
      if Reaches(vs[0], minSeverity) then
        assert ([vs[0]] + rest)[1..] == rest;
        [vs[0]] + rest
      else rest
  }

  /** With the lowest minimum nothing is dropped. */
  lemma {:induction false} InfoKeepsAll(vs: seq<PolicyViolation>)
    ensures GetBySeverity(vs, Info) == vs
  {
    if vs != [] {
      InfoKeepsAll(vs[1..]);
      assert vs == [vs[0]] + vs[1..];
    }
  }

  /** Raising the minimum only drops entries: the stricter result is a
      sublist of the looser one. */
  lemma {:induction false} SeverityMonotone(vs: seq<PolicyViolation>, lo: PolicySeverity, hi: PolicySeverity)
    requires Rank(lo) <= Rank(hi)
    ensures Sublist(GetBySeverity(vs, hi), GetBySeverity(vs, lo))
  {
    if vs != [] {
      SeverityMonotone(vs[1..], lo, hi);
      var a := GetBySeverity(vs[1..], hi);
      var b := GetBySeverity(vs[1..], lo);
      if Reaches(vs[0], hi) {
        assert ([vs[0]] + a)[1..] == a && ([vs[0]] + b)[1..] == b;
      } else if Reaches(vs[0], lo) {
        assert ([vs[0]] + b)[1..] == b;
        if a != [] {
          assert Sublist(a, ([vs[0]] + b)[1..]);
        }
      }
    }
  }

  /** Blocking and severity agree: a violation blocks exactly when it is at
      least an ERROR. */
  ghost predicate BlockingAgrees(vs: seq<PolicyViolation>)
  {
    forall v :: v in vs ==> (v.blocking <==> Reaches(v, Error))
  }

  lemma BlockingAgreesConcat(a: seq<PolicyViolation>, b: seq<PolicyViolation>)
    requires BlockingAgrees(a) && BlockingAgrees(b)
    ensures BlockingAgrees(a + b)
  {
    forall v | v in a + b ensures v.blocking <==> Reaches(v, Error) {
      assert v in a || v in b;
    }
  }

  /** Every violation the engine reports blocks exactly when it is at least
      an ERROR, whatever the configuration. */
  lemma BlockingMeansSevere(cfg: PolicyConfig, ctx: Context, f: Foreign)
    ensures BlockingAgrees(ValidateAll(cfg, ctx, f))
  {
    var security := ValidateSecurity(cfg.security, ctx, f);
    var quality := ValidateQuality(cfg.quality, ctx);
    var safety := ValidateSafety(cfg.safety, ctx, f);
    SecurityIsCritical(cfg.security, ctx, f);
    QualityBlocksWhenError(cfg.quality, ctx);
    SafetyBlocksWhenError(cfg.safety, ctx, f);
    BlockingAgreesConcat(security, quality);
    BlockingAgreesConcat(security + quality, safety);
    assert ValidateAll(cfg, ctx, f) == security + quality + safety;
  }

  /** A secret finding is CRITICAL and blocks. */
  lemma SecurityIsCritical(cfg: SecurityConfig, ctx: Context, f: Foreign)
    ensures BlockingAgrees(ValidateSecurity(cfg, ctx, f))
    ensures forall v :: v in ValidateSecurity(cfg, ctx, f) ==> v.blocking && v.severity == Critical
  {
    forall v | v in ValidateSecurity(cfg, ctx, f) ensures v.blocking && v.severity == Critical {
      assert SecretFinding(v, FilesContent(ctx).values, cfg.secretPatterns, f);
    }
  }

  /** The coverage violation blocks exactly when it is an ERROR. */
  lemma QualityBlocksWhenError(cfg: QualityConfig, ctx: Context)
    ensures BlockingAgrees(ValidateQuality(cfg, ctx))
  {
    var r := ValidateQuality(cfg, ctx);
    if |r| == 1 {
      assert forall v :: v in r ==> v == r[0];
    }
  }

  /** Every safety violation blocks and is at least an ERROR. */
  lemma SafetyBlocksWhenError(cfg: SafetyConfig, ctx: Context, f: Foreign)
    ensures BlockingAgrees(ValidateSafety(cfg, ctx, f))
  {
  }

  /** On a list where blocking and severity agree, the list blocks exactly
      when filtering at ERROR leaves something. */
  lemma BlockingIffErrorsKept(vs: seq<PolicyViolation>)
    requires BlockingAgrees(vs)
    ensures IsBlocking(vs) <==> GetBySeverity(vs, Error) != []
  {
    var r := GetBySeverity(vs, Error);
    if r != [] {
      assert r[0] in vs;
    }
    if IsBlocking(vs) {
      var i :| 0 <= i < |vs| && vs[i].blocking;
      assert vs[i] in r;
    }
  }

  /** So a validation run blocks exactly when filtering it at ERROR leaves
      something. */
  lemma BlockingIffErrorsRemain(cfg: PolicyConfig, ctx: Context, f: Foreign)
    ensures IsBlocking(ValidateAll(cfg, ctx, f)) <==> GetBySeverity(ValidateAll(cfg, ctx, f), Error) != []
  {
    BlockingMeansSevere(cfg, ctx, f);
    BlockingIffErrorsKept(ValidateAll(cfg, ctx, f));
  }

  /** Under the shipped defaults a low coverage is only a WARNING and never
      blocks. */
  lemma DefaultCoverageAdvises(ctx: Context)
    ensures var r := ValidateQuality(DefaultConfig().quality, ctx);
      && (r != [] <==> Coverage(ctx) < 80)
      && !IsBlocking(r)
      && forall v :: v in r ==> v.severity == Warning
  {
  }

  /** Under the shipped defaults any path whose normalised form contains
      `.env` or `secrets/` is prohibited, whatever the glob matcher does. */
  lemma DefaultProhibitsEnvAndSecrets(file: string, f: Foreign)
    requires Contains(f.normalize(file), ".env") || Contains(f.normalize(file), "secrets/")
    ensures IsProhibitedPath(file, DefaultConfig().safety.prohibitedPaths, f)
  {
    var patterns := DefaultConfig().safety.prohibitedPaths;
    assert '*' !in patterns[0] && '*' !in patterns[1];
    if Contains(f.normalize(file), ".env") {
      assert PatternCatches(f.normalize(file), patterns[0], f);
    } else {
      assert PatternCatches(f.normalize(file), patterns[1], f);
    }
  }
}
