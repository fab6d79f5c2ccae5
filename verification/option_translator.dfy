/** Translation of the caller's abstract options into Google Closure
    Compiler flags (`translateAemGccOptions`,
    `translateAemGccCompilationLevel`, `populateDefaultParameters`).

    The caller's `Map<String,String>` is an ordered sequence of (key, value)
    pairs folded left to right; a later write to the same flag wins. The
    Java map's own iteration order is unspecified, so nothing here depends
    on one order over another beyond "the later pair wins". */
module OptionTranslator {
  import opened JavaText
  import opened ArgumentMap
  import opened Maybe

  // The caller's vocabulary.
  const FailOnWarningKey := "failOnWarning"
  const LanguageInKey := "languageIn"
  const LanguageOutKey := "languageOut"
  const CompilationLevelKey := "compilationLevel"

  // The compiler's flags.
  const JscompErrorFlag := "--jscomp_error"
  const LanguageInFlag := "--language_in"
  const LanguageOutFlag := "--language_out"
  const CompilationLevelFlag := "--compilation_level"
  const StrictModeInputFlag := "--strict_mode_input"

  // Compilation levels, spelled as the processor spells them.
  const Simple := "SIMPLE"
  const WhitespaceOnly := "WHITSPACE_ONLY"
  const Advanced := "ADVANCED"

  /** The three flags `populateDefaultParameters` seeds, with their values. */
  const Defaults: map<string, string> :=
    map[CompilationLevelFlag := Advanced,
        LanguageInFlag := "ECMASCRIPT_NEXT",
        LanguageOutFlag := "ECMASCRIPT5"]

  /** `translateAemGccOptions`: the flag an option key names, or "" when
      the key is not recognised. A key starting with '-' is already a flag;
      the four known keys are matched ignoring case. */
  function TranslateOptionKey(key: string): (flag: string)
    ensures StartsWith(key, "-") ==> flag == key
    ensures !StartsWith(key, "-") ==>
      && (flag == JscompErrorFlag <==> EqualsIgnoreCase(key, FailOnWarningKey))
      && (flag == LanguageInFlag <==> EqualsIgnoreCase(key, LanguageInKey))
      && (flag == LanguageOutFlag <==> EqualsIgnoreCase(key, LanguageOutKey))
      && (flag == CompilationLevelFlag <==> EqualsIgnoreCase(key, CompilationLevelKey))
      && (flag == "" <==>
            && !EqualsIgnoreCase(key, FailOnWarningKey)
            && !EqualsIgnoreCase(key, LanguageInKey)
            && !EqualsIgnoreCase(key, LanguageOutKey)
            && !EqualsIgnoreCase(key, CompilationLevelKey))
    ensures flag == "" || StartsWith(flag, "-")
  {
    if StartsWith(key, "-") then key
    else if EqualsIgnoreCase(FailOnWarningKey, key) then JscompErrorFlag
    else if EqualsIgnoreCase(LanguageInKey, key) then LanguageInFlag
    else if EqualsIgnoreCase(LanguageOutKey, key) then LanguageOutFlag
    else if EqualsIgnoreCase(CompilationLevelKey, key) then CompilationLevelFlag
    else ""
  }

  /** `translateAemGccCompilationLevel`: total, and always one of the three
      level names. "simple" needs no branch of its own in the contract: it
      falls into the SIMPLE case like every unrecognised value. */
  function TranslateCompilationLevel(value: string): (level: string)
    ensures level == Simple || level == WhitespaceOnly || level == Advanced
    ensures level == WhitespaceOnly <==> EqualsIgnoreCase(value, "whitespace")
    ensures level == Advanced <==> EqualsIgnoreCase(value, "advanced")
    ensures EqualsIgnoreCase(value, "simple") ==> level == Simple
  {
    if EqualsIgnoreCase("simple", value) then Simple
    else if EqualsIgnoreCase("whitespace", value) then WhitespaceOnly
    else if EqualsIgnoreCase("advanced", value) then Advanced
    else Simple
  }

  /** Whether an option key is one the translation puts into the flag map:
      a raw flag, or one of the three value-carrying keys. */
  predicate Contributes(key: string)
  {
    || StartsWith(key, "-")
    || EqualsIgnoreCase(key, LanguageInKey)
    || EqualsIgnoreCase(key, LanguageOutKey)
    || EqualsIgnoreCase(key, CompilationLevelKey)
  }

  /** One iteration of the loop in `populateDefaultParameters`: the
      (flag, value) pair it puts, or None when its flag is blank and the
      `put` is skipped. `failOnWarning` computes "*" or "" and then clears
      its own flag, so it never contributes. */
  function Contribution(opt: Entry): (c: Option<Entry>)
    ensures c.Some? ==> StartsWith(c.value.0, "-")
  {
    var (key, value) := opt;
    var flag := TranslateOptionKey(key);
    var (gccFlag, gccValue) :=
      if EqualsIgnoreCase(CompilationLevelKey, key) then (flag, TranslateCompilationLevel(value))
      else if EqualsIgnoreCase(FailOnWarningKey, key) then ("", if EqualsIgnoreCase("true", value) then "*" else "")
      else (flag, value);
    if !IsBlank(gccFlag) then Some((gccFlag, gccValue)) else None
  }

  /** What each kind of option key puts into the flag map: a raw flag
      stores its value under itself, `languageIn`/`languageOut` store their
      value unchanged, `compilationLevel` stores the translated level, and
      `failOnWarning` and every other key store nothing. */
  lemma ContributionTable(opt: Entry)
    ensures Contribution(opt).Some? <==> Contributes(opt.0)
    ensures StartsWith(opt.0, "-") ==> Contribution(opt) == Some(opt)
    ensures EqualsIgnoreCase(opt.0, LanguageInKey) ==> Contribution(opt) == Some((LanguageInFlag, opt.1))
    ensures EqualsIgnoreCase(opt.0, LanguageOutKey) ==> Contribution(opt) == Some((LanguageOutFlag, opt.1))
    ensures EqualsIgnoreCase(opt.0, CompilationLevelKey) ==>
              Contribution(opt) == Some((CompilationLevelFlag, TranslateCompilationLevel(opt.1)))
    ensures EqualsIgnoreCase(opt.0, FailOnWarningKey) ==> Contribution(opt) == None
  {
    var key := opt.0;
    EqualsIgnoreCaseEquivalence(key, CompilationLevelKey, key);
    EqualsIgnoreCaseEquivalence(key, FailOnWarningKey, key);
    EqualsIgnoreCaseEquivalence(key, LanguageInKey, key);
    EqualsIgnoreCaseEquivalence(key, LanguageOutKey, key);
    if StartsWith(key, "-") {
      DashStartedNotBlank(key);
    } else if EqualsIgnoreCase(key, CompilationLevelKey) {
      DashStartedNotBlank(CompilationLevelFlag);
    } else if EqualsIgnoreCase(key, FailOnWarningKey) {
      assert IsBlank("");
    } else if EqualsIgnoreCase(key, LanguageInKey) {
      DashStartedNotBlank(LanguageInFlag);
    } else if EqualsIgnoreCase(key, LanguageOutKey) {
      DashStartedNotBlank(LanguageOutFlag);
    } else {
      assert TranslateOptionKey(key) == "";
    }
  }

  /** Whether a contribution writes flag `f`. */
  predicate WritesFlag(c: Option<Entry>, f: string)
  {
    c.Some? && c.value.0 == f
  }

  /** The flags a sequence of contributions writes, whatever their order. */
  function Written(cs: seq<Option<Entry>>): set<string>
  {
    set j | 0 <= j < |cs| && cs[j].Some? :: cs[j].value.0
  }

  /** Put one contribution into the flag map under construction, or skip it. */
  function Apply(acc: seq<Entry>, c: Option<Entry>): seq<Entry>
    requires DistinctKeys(acc)
  {
    match c
    case None => acc
    case Some((f, v)) => Put(acc, f, v)
  }

  /** What one step does to the denoted map, and that it keeps the list a
      well-formed map. */
  lemma ApplyDenotes(acc: seq<Entry>, c: Option<Entry>)
    requires DistinctKeys(acc)
    ensures DistinctKeys(Apply(acc, c))
    ensures c.None? ==> Apply(acc, c) == acc
    ensures c.Some? ==> ToMap(Apply(acc, c)) == ToMap(acc)[c.value.0 := c.value.1]
    ensures c.Some? ==> Keys(Apply(acc, c)) == Keys(acc) + {c.value.0}
  {
    if c.Some? {
      var (f, v) := c.value;
      PutDistinct(acc, f, v);
      PutDenotes(acc, f, v);
      PutKeys(acc, f, v);
    }
  }

  lemma WrittenSnoc(cs: seq<Option<Entry>>)
    requires |cs| > 0
    ensures Written(cs) == Written(cs[..|cs| - 1])
                         + (if cs[|cs| - 1].Some? then {cs[|cs| - 1].value.0} else {})
  {
    var init := cs[..|cs| - 1];
    forall x | x in Written(cs) ensures x in Written(init) || WritesFlag(cs[|cs| - 1], x) {
      var j :| 0 <= j < |cs| && cs[j].Some? && cs[j].value.0 == x;
      if j < |cs| - 1 { assert init[j] == cs[j]; }
    }
    forall x | x in Written(init) ensures x in Written(cs) {
      var j :| 0 <= j < |init| && init[j].Some? && init[j].value.0 == x;
      assert cs[j] == init[j];
    }
  }

  /** The loop of `populateDefaultParameters`, over the options'
      contributions, left to right. It only ever puts: the resulting keys
      are those of `acc` plus exactly the flags written. */
  function FoldFlags(acc: seq<Entry>, cs: seq<Option<Entry>>): (r: seq<Entry>)
    requires DistinctKeys(acc)
    ensures DistinctKeys(r)
    ensures Keys(r) == Keys(acc) + Written(cs)
    decreases |cs|
  {
    if |cs| == 0 then
      assert Written(cs) == {};
      acc
    else
      var prev := FoldFlags(acc, cs[..|cs| - 1]);
      ApplyDenotes(prev, cs[|cs| - 1]);
      WrittenSnoc(cs);
      Apply(prev, cs[|cs| - 1])
  }

  /** Last write wins: after the fold, a flag holds the value of the last
      contribution that writes it. */
  lemma {:induction false} FoldLastWriteWins(
    acc: seq<Entry>, cs: seq<Option<Entry>>, i: nat, f: string, v: string)
    requires DistinctKeys(acc)
    requires i < |cs| && cs[i] == Some((f, v))
    requires forall j :: i < j < |cs| ==> !WritesFlag(cs[j], f)
    ensures Get(ToMap(FoldFlags(acc, cs)), f) == Some(v)
  {
    var n := |cs|;
    if i < n - 1 {
      var init := cs[..n - 1];
      assert init[i] == cs[i];
      forall j | i < j < |init| ensures !WritesFlag(init[j], f) {
        assert init[j] == cs[j];
      }
      FoldLastWriteWins(acc, init, i, f, v);
      FoldStepElsewhere(acc, cs, f);
    } else {
      FoldStepHere(acc, cs, f, v);
    }
  }

  /** A flag no contribution writes keeps whatever `acc` gave it. */
  lemma {:induction false} FoldUnwritten(acc: seq<Entry>, cs: seq<Option<Entry>>, f: string)
    requires DistinctKeys(acc)
    requires forall j :: 0 <= j < |cs| ==> !WritesFlag(cs[j], f)
    ensures Get(ToMap(FoldFlags(acc, cs)), f) == Get(ToMap(acc), f)
  {
    if |cs| > 0 {
      var init := cs[..|cs| - 1];
      forall j | 0 <= j < |init| ensures !WritesFlag(init[j], f) {
        assert init[j] == cs[j];
      }
      FoldUnwritten(acc, init, f);
      FoldStepElsewhere(acc, cs, f);
    }
  }

  /** A last step that writes `f` leaves `v` there. */
  lemma FoldStepHere(acc: seq<Entry>, cs: seq<Option<Entry>>, f: string, v: string)
    requires DistinctKeys(acc) && |cs| > 0 && cs[|cs| - 1] == Some((f, v))
    ensures Get(ToMap(FoldFlags(acc, cs)), f) == Some(v)
  {
    var prev := FoldFlags(acc, cs[..|cs| - 1]);
    FoldSnoc(acc, cs);
    ApplyDenotes(prev, cs[|cs| - 1]);
  }

  /** A last step that does not write `f` leaves it as it was. */
  lemma FoldStepElsewhere(acc: seq<Entry>, cs: seq<Option<Entry>>, f: string)
    requires DistinctKeys(acc) && |cs| > 0 && !WritesFlag(cs[|cs| - 1], f)
    ensures Get(ToMap(FoldFlags(acc, cs)), f) == Get(ToMap(FoldFlags(acc, cs[..|cs| - 1])), f)
  {
    var prev := FoldFlags(acc, cs[..|cs| - 1]);
    FoldSnoc(acc, cs);
    ApplyDenotes(prev, cs[|cs| - 1]);
  }

  /** A contribution of nothing can be dropped from anywhere. */
  lemma {:induction false} FoldSkipsNone(acc: seq<Entry>, a: seq<Option<Entry>>, b: seq<Option<Entry>>)
    requires DistinctKeys(acc)
    ensures FoldFlags(acc, a + [None] + b) == FoldFlags(acc, a + b)
  {
    var s, t := a + [None] + b, a + b;
    if |b| == 0 {
      assert s[..|s| - 1] == a && s[|s| - 1] == None;
      assert t == a;
      FoldSnoc(acc, s);
    } else {
      var b' := b[..|b| - 1];
      FoldSkipsNone(acc, a, b');
      assert s[..|s| - 1] == a + [None] + b' && s[|s| - 1] == b[|b| - 1];
      assert t[..|t| - 1] == a + b' && t[|t| - 1] == b[|b| - 1];
      FoldSnoc(acc, s);
      FoldSnoc(acc, t);
    }
  }

  lemma FoldSnoc(acc: seq<Entry>, cs: seq<Option<Entry>>)
    requires DistinctKeys(acc) && |cs| > 0
    ensures DistinctKeys(FoldFlags(acc, cs[..|cs| - 1]))
    ensures FoldFlags(acc, cs) == Apply(FoldFlags(acc, cs[..|cs| - 1]), cs[|cs| - 1])
  {
  }

  /** The seeded map: the three defaults, in the order they are put. */
  function Seed(): (r: seq<Entry>)
    ensures DistinctKeys(r)
    ensures ToMap(r) == Defaults
  {
    var r := [(CompilationLevelFlag, Advanced), (LanguageInFlag, "ECMASCRIPT_NEXT"),
              (LanguageOutFlag, "ECMASCRIPT5")];
    ThreeEntryMap(r[0], r[1], r[2]);
    r
  }

  /** The seed is what the source's three `put`s into an empty map build. */
  lemma SeedIsThreePuts()
    ensures Seed() == Put(Put(Put([], CompilationLevelFlag, Advanced),
                                  LanguageInFlag, "ECMASCRIPT_NEXT"),
                              LanguageOutFlag, "ECMASCRIPT5")
  {
    var s1 := Put([], CompilationLevelFlag, Advanced);
    assert s1 == [(CompilationLevelFlag, Advanced)];
    PutDistinct([], CompilationLevelFlag, Advanced);
    assert LanguageInFlag !in Keys(s1);
    var s2 := Put(s1, LanguageInFlag, "ECMASCRIPT_NEXT");
    assert s2 == [(CompilationLevelFlag, Advanced), (LanguageInFlag, "ECMASCRIPT_NEXT")];
    PutDistinct(s1, LanguageInFlag, "ECMASCRIPT_NEXT");
    assert LanguageOutFlag !in Keys(s2);
  }

  /** Each option's contribution, in order. */
  function Contributions(opts: seq<Entry>): (cs: seq<Option<Entry>>)
    ensures |cs| == |opts|
  {
    if |opts| == 0 then []
    else Contributions(opts[..|opts| - 1]) + [Contribution(opts[|opts| - 1])]
  }

  lemma {:induction false} ContributionsIndex(opts: seq<Entry>, i: nat)
    requires i < |opts|
    ensures Contributions(opts)[i] == Contribution(opts[i])
  {
    if i < |opts| - 1 {
      ContributionsIndex(opts[..|opts| - 1], i);
    }
  }

  lemma ContributionsAppend(a: seq<Entry>, b: seq<Entry>)
    ensures Contributions(a + b) == Contributions(a) + Contributions(b)
  {
    var lhs, rhs := Contributions(a + b), Contributions(a) + Contributions(b);
    forall i | 0 <= i < |a + b| ensures lhs[i] == rhs[i] {
      ContributionsAppendAt(a, b, i);
    }
  }

  lemma ContributionsAppendAt(a: seq<Entry>, b: seq<Entry>, i: nat)
    requires i < |a| + |b|
    ensures Contributions(a + b)[i] == (Contributions(a) + Contributions(b))[i]
  {
    ContributionsIndex(a + b, i);
    if i < |a| {
      ContributionsIndex(a, i);
    } else {
      ContributionsIndex(b, i - |a|);
    }
  }

  /** The flags the options write. */
  function WrittenFlags(opts: seq<Entry>): set<string>
  {
    Written(Contributions(opts))
  }

  lemma WrittenAreFlags(opts: seq<Entry>)
    ensures forall k :: k in WrittenFlags(opts) ==> StartsWith(k, "-")
  {
    var cs := Contributions(opts);
    forall k | k in Written(cs) ensures StartsWith(k, "-") {
      var j :| 0 <= j < |cs| && cs[j].Some? && cs[j].value.0 == k;
      ContributionsIndex(opts, j);
    }
  }

  /** `populateDefaultParameters`. The key set is exactly the three
      defaults plus the flags the options write: the defaults are always
      present, since entries are only ever put and never removed, and no
      other key gets in. */
  function PopulateDefaultParameters(opts: seq<Entry>): (r: seq<Entry>)
    ensures DistinctKeys(r)
    ensures Keys(r) == Defaults.Keys + WrittenFlags(opts)
  {
    var seed := Seed();
    assert Keys(seed) == Defaults.Keys by {
      assert Keys(seed) == ToMap(seed).Keys;
    }
    FoldFlags(seed, Contributions(opts))
  }

  /** With no options the result is exactly the defaults. */
  lemma PopulateNoOptions()
    ensures ToMap(PopulateDefaultParameters([])) == Defaults
  {
    assert Contributions([]) == [];
  }

  /** Every key of the result is a compiler flag: it starts with '-'. */
  lemma PopulateKeysAreFlags(opts: seq<Entry>)
    ensures forall k :: k in Keys(PopulateDefaultParameters(opts)) ==> StartsWith(k, "-")
  {
    WrittenAreFlags(opts);
    assert forall k :: k in Defaults.Keys ==> StartsWith(k, "-");
  }

  /** Peeling the last option off the loop. */
  lemma PopulateSnoc(opts: seq<Entry>)
    requires |opts| > 0
    ensures DistinctKeys(PopulateDefaultParameters(opts[..|opts| - 1]))
    ensures PopulateDefaultParameters(opts)
         == Apply(PopulateDefaultParameters(opts[..|opts| - 1]), Contribution(opts[|opts| - 1]))
  {
    FoldSnoc(Seed(), Contributions(opts));
  }

  /** Whether option `opt` writes flag `f`. */
  predicate Writes(opt: Entry, f: string)
  {
    WritesFlag(Contribution(opt), f)
  }

  /** Last write wins: the value of a flag is the one stored by the last
      option that writes it, whichever kind of key that option has. */
  lemma PopulateLastWriteWins(opts: seq<Entry>, i: nat, f: string, v: string)
    requires i < |opts| && Contribution(opts[i]) == Some((f, v))
    requires forall j :: i < j < |opts| ==> !Writes(opts[j], f)
    ensures Get(ToMap(PopulateDefaultParameters(opts)), f) == Some(v)
  {
    var cs := Contributions(opts);
    forall j | 0 <= j < |opts| ensures cs[j] == Contribution(opts[j]) {
      ContributionsIndex(opts, j);
    }
    FoldLastWriteWins(Seed(), cs, i, f, v);
  }

  /** A flag no option writes keeps what the map was seeded with: it is
      present, with the default value, exactly when it is one of the three
      defaults (the seed denotes `Defaults`). */
  lemma PopulateUnwrittenKeepsDefault(opts: seq<Entry>, f: string)
    requires forall j :: 0 <= j < |opts| ==> !Writes(opts[j], f)
    ensures Get(ToMap(PopulateDefaultParameters(opts)), f) == Get(ToMap(Seed()), f)
  {
    var cs := Contributions(opts);
    forall j | 0 <= j < |opts| ensures cs[j] == Contribution(opts[j]) {
      ContributionsIndex(opts, j);
    }
    FoldUnwritten(Seed(), cs, f);
  }

  /** An option that contributes nothing (an unrecognised key, or
      `failOnWarning` with any value) can be dropped from anywhere in the
      sequence without changing the result. */
  lemma PopulateIgnoresSilentOption(a: seq<Entry>, opt: Entry, b: seq<Entry>)
    requires !Contributes(opt.0)
    ensures PopulateDefaultParameters(a + [opt] + b) == PopulateDefaultParameters(a + b)
  {
    ContributionTable(opt);
    ContributionsAppend(a + [opt], b);
    ContributionsAppend(a, [opt]);
    ContributionsAppend(a, b);
    assert Contributions([opt]) == [None] by {
      assert [opt][..0] == [];
    }
    FoldSkipsNone(Seed(), Contributions(a), Contributions(b));
  }

  /** `failOnWarning` never changes the flag map, whatever its spelling
      case and whatever its value: its flag is cleared unconditionally. */
  lemma FailOnWarningHasNoEffect(a: seq<Entry>, key: string, value: string, b: seq<Entry>)
    requires EqualsIgnoreCase(key, FailOnWarningKey)
    ensures PopulateDefaultParameters(a + [(key, value)] + b) == PopulateDefaultParameters(a + b)
  {
    ContributionTable((key, value));
    PopulateIgnoresSilentOption(a, (key, value), b);
  }

  /** Option keys other than raw flags are matched ignoring case: two
      spellings that differ only in ASCII case contribute the same flag and
      value. Raw flags are taken literally. */
  lemma ContributionIgnoresKeyCase(k1: string, k2: string, value: string)
    requires EqualsIgnoreCase(k1, k2) && !StartsWith(k1, "-")
    ensures Contribution((k1, value)) == Contribution((k2, value))
  {
    var keys := [FailOnWarningKey, LanguageInKey, LanguageOutKey, CompilationLevelKey];
    forall w | w in keys
      ensures EqualsIgnoreCase(k1, w) <==> EqualsIgnoreCase(k2, w)
    {
      EqualsIgnoreCaseEquivalence(k1, k2, w);
      EqualsIgnoreCaseEquivalence(k2, k1, w);
    }
    ContributionTable((k1, value));
    ContributionTable((k2, value));
  }

  /** The compilation level is matched ignoring case. */
  lemma CompilationLevelIgnoresCase(v1: string, v2: string)
    requires EqualsIgnoreCase(v1, v2)
    ensures TranslateCompilationLevel(v1) == TranslateCompilationLevel(v2)
  {
    EqualsIgnoreCaseEquivalence(v1, v2, "whitespace");
    EqualsIgnoreCaseEquivalence(v2, v1, "whitespace");
    EqualsIgnoreCaseEquivalence(v1, v2, "advanced");
    EqualsIgnoreCaseEquivalence(v2, v1, "advanced");
  }

  /** Options that are all raw flags are passed through unchanged: the
      result denotes the defaults overridden by the options' own map. */
  lemma {:induction false} PopulateRawFlags(opts: seq<Entry>)
    requires forall i :: 0 <= i < |opts| ==> StartsWith(opts[i].0, "-")
    ensures ToMap(PopulateDefaultParameters(opts)) == Defaults + ToMap(opts)
  {
    if |opts| == 0 {
      PopulateNoOptions();
    } else {
      var init, last := opts[..|opts| - 1], opts[|opts| - 1];
      assert opts == init + [last];
      PopulateRawFlags(init);
      PopulateSnoc(opts);
      RawFlagContribution(last);
      OverrideStep(PopulateDefaultParameters(init), init, last);
    }
  }

  /** Putting one more entry keeps "the defaults overridden by the entries". */
  lemma OverrideStep(prev: seq<Entry>, init: seq<Entry>, last: Entry)
    requires DistinctKeys(prev) && ToMap(prev) == Defaults + ToMap(init)
    ensures ToMap(Put(prev, last.0, last.1)) == Defaults + ToMap(init + [last])
  {
    PutDenotes(prev, last.0, last.1);
    ToMapSnoc(init, last);
    OverrideThenUpdate(Defaults, ToMap(init), last.0, last.1);
  }

  /** A raw flag is stored under itself with its value unchanged. */
  lemma RawFlagContribution(opt: Entry)
    requires StartsWith(opt.0, "-")
    ensures Contribution(opt) == Some(opt)
  {
    ContributionTable(opt);
  }

  lemma OverrideThenUpdate(d: map<string, string>, m: map<string, string>, k: string, v: string)
    ensures (d + m)[k := v] == d + m[k := v]
  {
  }

  /** The options of the repository's own processing test: raw flags
      replace all three defaults, values untouched. */
  lemma RawFlagsReplaceDefaults()
    ensures ToMap(PopulateDefaultParameters(
              [(LanguageInFlag, "UNSTABLE"), (LanguageOutFlag, "ECMASCRIPT5_STRICT"),
               (CompilationLevelFlag, "SIMPLE")]))
         == map[LanguageInFlag := "UNSTABLE", LanguageOutFlag := "ECMASCRIPT5_STRICT",
                CompilationLevelFlag := "SIMPLE"]
  {
    var opts := [(LanguageInFlag, "UNSTABLE"), (LanguageOutFlag, "ECMASCRIPT5_STRICT"),
                 (CompilationLevelFlag, "SIMPLE")];
    var expected := map[LanguageInFlag := "UNSTABLE", LanguageOutFlag := "ECMASCRIPT5_STRICT",
                        CompilationLevelFlag := "SIMPLE"];
    assert forall i :: 0 <= i < |opts| ==> StartsWith(opts[i].0, "-");
    PopulateRawFlags(opts);
    ThreeEntryMap(opts[0], opts[1], opts[2]);
    assert opts == [opts[0], opts[1], opts[2]];
    OverrideCovered(Defaults, expected);
  }

  lemma ThreeEntryMap(a: Entry, b: Entry, c: Entry)
    ensures ToMap([a, b, c]) == map[a.0 := a.1, b.0 := b.1, c.0 := c.1]
  {
    assert [a, b, c] == [a, b] + [c];
    assert [a, b] == [a] + [b];
    assert [a] == [] + [a];
    ToMapSnoc([], a);
    ToMapSnoc([a], b);
    ToMapSnoc([a, b], c);
  }

  lemma OverrideCovered(d: map<string, string>, m: map<string, string>)
    requires d.Keys <= m.Keys
    ensures d + m == m
  {
  }

  /** There is no precedence between a raw flag and a translated key
      naming the same flag: whichever comes later in the sequence wins. */
  lemma NoPrecedenceBetweenKeyKinds(v: string, w: string)
    ensures Get(ToMap(PopulateDefaultParameters([(LanguageInKey, v), (LanguageInFlag, w)])), LanguageInFlag) == Some(w)
    ensures Get(ToMap(PopulateDefaultParameters([(LanguageInFlag, w), (LanguageInKey, v)])), LanguageInFlag) == Some(v)
  {
    EqualsIgnoreCaseEquivalence(LanguageInKey, LanguageInKey, LanguageInKey);
    ContributionTable((LanguageInKey, v));
    assert StartsWith(LanguageInFlag, "-");
    RawFlagContribution((LanguageInFlag, w));
    PopulateLastWriteWins([(LanguageInKey, v), (LanguageInFlag, w)], 1, LanguageInFlag, w);
    PopulateLastWriteWins([(LanguageInFlag, w), (LanguageInKey, v)], 1, LanguageInFlag, v);
  }

  /** A flag is among the written flags exactly when some option writes it. */
  lemma WrittenFlagsMeaning(opts: seq<Entry>, f: string)
    ensures f in WrittenFlags(opts) <==> exists j :: 0 <= j < |opts| && Writes(opts[j], f)
  {
    var cs := Contributions(opts);
    if f in Written(cs) {
      var j :| 0 <= j < |cs| && cs[j].Some? && cs[j].value.0 == f;
      ContributionsIndex(opts, j);
      assert Writes(opts[j], f);
    }
    if exists j :: 0 <= j < |opts| && Writes(opts[j], f) {
      var j :| 0 <= j < |opts| && Writes(opts[j], f);
      ContributionsIndex(opts, j);
      assert cs[j].Some? && cs[j].value.0 == f;
    }
  }
}
