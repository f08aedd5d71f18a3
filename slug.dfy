/**
 * The slug generator that PostService and CategoryService each carry as a private
 * `generateSlug`: the two copies are identical except for the repository they consult,
 * so the model has one generator that takes the set of slugs already stored.
 *
 * The base slug is the text lower-cased and passed through four regular-expression
 * replacements; the generator then tries the base, then base-1, base-2, ... until a
 * candidate is not taken.
 */
module Slug {
  import opened Text

  // ---------------------------------------------------------------- the base slug

  /** The characters `replaceAll("[^a-z0-9\\s-]", "")` keeps. */
  predicate Kept(c: char) { IsAlnum(c) || IsJavaSpace(c) || c == '-' }

  /** The characters a well-formed slug is made of. */
  predicate SlugChar(c: char) { IsAlnum(c) || c == '-' }

  /** Deletes every character outside [a-z0-9], `\s` and '-'. */
  function StripDisallowed(s: string): (r: string)
    ensures forall i :: 0 <= i < |r| ==> Kept(r[i])
    ensures |r| <= |s|
  {
    if s == [] then [] else (if Kept(s[0]) then [s[0]] else []) + StripDisallowed(s[1..])
  }

  /** Every kept character survives the strip as often as it occurs; nothing else does. */
  lemma {:induction false} StripKeepsKept(s: string)
    ensures forall c :: Kept(c) ==> multiset(StripDisallowed(s))[c] == multiset(s)[c]
    ensures forall c :: !Kept(c) ==> multiset(StripDisallowed(s))[c] == 0
  {
    if s != [] {
      StripKeepsKept(s[1..]);
      assert s == [s[0]] + s[1..];
    }
  }

  /** The two run-collapsing replacements: `\s+` and `-+`, both replaced by "-". */
  datatype Run = Whitespace | Hyphens

  predicate InRun(run: Run, c: char) {
    match run
    case Whitespace => IsJavaSpace(c)
    case Hyphens => c == '-'
  }

  /**
   * Replaces every maximal run of characters of kind `run` by a single '-'.
   * `afterRun` says the character just before `s` belonged to such a run.
   */
  function ReplaceRuns(s: string, run: Run, afterRun: bool): string
  {
    if s == [] then []
    else if InRun(run, s[0]) then (if afterRun then [] else "-") + ReplaceRuns(s[1..], run, true)
    else [s[0]] + ReplaceRuns(s[1..], run, false)
  }

  /**
   * `replaceAll("^-|-$", "")`: drops one leading and one trailing '-'. (`$` could also
   * match before a final line terminator, but none survives the earlier steps.)
   */
  function TrimHyphens(s: string): string {
    var t := if s != [] && s[0] == '-' then s[1..] else s;
    if t != [] && t[|t| - 1] == '-' then t[..|t| - 1] else t
  }

  /** The base slug: lower-case, strip, whitespace runs to '-', collapse '-' runs, trim. */
  function BaseSlug(text: string): (slug: string) {
    TrimHyphens(ReplaceRuns(ReplaceRuns(StripDisallowed(Lower(text)), Whitespace, false), Hyphens, false))
  }

  // ---------------------------------------------------------------- shape of the base slug

  predicate AllSlugChars(s: string) { forall i :: 0 <= i < |s| ==> SlugChar(s[i]) }

  predicate NoDoubleHyphen(s: string) {
    forall i :: 0 <= i < |s| - 1 ==> s[i] != '-' || s[i + 1] != '-'
  }

  /** Only [a-z0-9-], no "--", no '-' at either end. The empty string qualifies. */
  predicate WellFormedSlug(s: string) {
    AllSlugChars(s) && NoDoubleHyphen(s) && (s != [] ==> s[0] != '-' && s[|s| - 1] != '-')
  }

  lemma {:induction false} SpacesToHyphensChars(s: string, afterRun: bool)
    requires forall i :: 0 <= i < |s| ==> Kept(s[i])
    ensures AllSlugChars(ReplaceRuns(s, Whitespace, afterRun))
  {
    if s != [] {
      SpacesToHyphensChars(s[1..], IsJavaSpace(s[0]));
    }
  }

  lemma {:induction false} CollapseHyphensShape(s: string, afterRun: bool)
    requires AllSlugChars(s)
    ensures var r := ReplaceRuns(s, Hyphens, afterRun);
      AllSlugChars(r) && NoDoubleHyphen(r) && (afterRun && r != [] ==> r[0] != '-')
  {
    if s != [] {
      CollapseHyphensShape(s[1..], s[0] == '-');
      var rest := ReplaceRuns(s[1..], Hyphens, s[0] == '-');
      var r := ReplaceRuns(s, Hyphens, afterRun);
      if s[0] == '-' && afterRun {
        assert r == rest;
      } else {
        assert r == [s[0]] + rest;
        forall i | 0 <= i < |r| - 1 ensures r[i] != '-' || r[i + 1] != '-' {
          if i > 0 {
            assert r[i] == rest[i - 1] && r[i + 1] == rest[i];
          }
        }
      }
    }
  }

  lemma TrimHyphensShape(s: string)
    requires AllSlugChars(s) && NoDoubleHyphen(s)
    ensures WellFormedSlug(TrimHyphens(s))
  {
    var t := if s != [] && s[0] == '-' then s[1..] else s;
    assert AllSlugChars(t) && NoDoubleHyphen(t);
    assert t != [] ==> t[0] != '-' by {
      if t != [] && s != [] && s[0] == '-' {
        assert t[0] == s[1];
      }
    }
    var r := TrimHyphens(s);
    if t != [] && t[|t| - 1] == '-' {
      assert r == t[..|t| - 1];
      if r != [] {
        assert r[|r| - 1] == t[|t| - 2];
      }
    }
  }

  /** Every base slug is well formed, whatever the text. */
  lemma BaseSlugWellFormed(text: string)
    ensures WellFormedSlug(BaseSlug(text))
  {
    var stripped := StripDisallowed(Lower(text));
    SpacesToHyphensChars(stripped, false);
    CollapseHyphensShape(ReplaceRuns(stripped, Whitespace, false), false);
    TrimHyphensShape(ReplaceRuns(ReplaceRuns(stripped, Whitespace, false), Hyphens, false));
  }

  // ---------------------------------------------------------------- what the base slug keeps

  /** The letters and digits of a string, in order. */
  function Alnums(s: string): (r: string)
    ensures forall i :: 0 <= i < |r| ==> IsAlnum(r[i])
  {
    if s == [] then [] else (if IsAlnum(s[0]) then [s[0]] else []) + Alnums(s[1..])
  }

  lemma {:induction false} AlnumsAppend(a: string, b: string)
    ensures Alnums(a + b) == Alnums(a) + Alnums(b)
  {
    if a == [] {
      assert a + b == b;
    } else {
      assert (a + b)[1..] == a[1..] + b;
      AlnumsAppend(a[1..], b);
    }
  }

  lemma {:induction false} StripKeepsAlnums(s: string)
    ensures Alnums(StripDisallowed(s)) == Alnums(s)
  {
    if s != [] {
      StripKeepsAlnums(s[1..]);
      AlnumsAppend(if Kept(s[0]) then [s[0]] else [], StripDisallowed(s[1..]));
    }
  }

  lemma {:induction false} ReplaceRunsKeepsAlnums(s: string, run: Run, afterRun: bool)
    ensures Alnums(ReplaceRuns(s, run, afterRun)) == Alnums(s)
  {
    if s != [] {
      ReplaceRunsKeepsAlnums(s[1..], run, InRun(run, s[0]));
      if InRun(run, s[0]) {
        AlnumsAppend(if afterRun then [] else "-", ReplaceRuns(s[1..], run, true));
      } else {
        AlnumsAppend([s[0]], ReplaceRuns(s[1..], run, false));
      }
    }
  }

  lemma DropHyphenKeepsAlnums(s: string)
    requires s != [] && s[0] == '-'
    ensures Alnums(s[1..]) == Alnums(s)
  {
  }

  lemma DropLastHyphenKeepsAlnums(t: string)
    requires t != [] && t[|t| - 1] == '-'
    ensures Alnums(t[..|t| - 1]) == Alnums(t)
  {
    AlnumsAppend(t[..|t| - 1], [t[|t| - 1]]);
    assert t == t[..|t| - 1] + [t[|t| - 1]];
  }

  lemma TrimKeepsAlnums(s: string)
    ensures Alnums(TrimHyphens(s)) == Alnums(s)
  {
    var t := if s != [] && s[0] == '-' then s[1..] else s;
    if s != [] && s[0] == '-' {
      DropHyphenKeepsAlnums(s);
    }
    assert Alnums(t) == Alnums(s);
    if t != [] && t[|t| - 1] == '-' {
      DropLastHyphenKeepsAlnums(t);
    }
  }

  /**
   * Nothing of the title's letters and digits is lost or reordered: the base slug's
   * letters and digits are exactly those of the lower-cased text.
   */
  lemma BaseSlugKeepsAlnums(text: string)
    ensures Alnums(BaseSlug(text)) == Alnums(Lower(text))
  {
    var s1 := StripDisallowed(Lower(text));
    var s2 := ReplaceRuns(s1, Whitespace, false);
    var s3 := ReplaceRuns(s2, Hyphens, false);
    StripKeepsAlnums(Lower(text));
    ReplaceRunsKeepsAlnums(s1, Whitespace, false);
    ReplaceRunsKeepsAlnums(s2, Hyphens, false);
    TrimKeepsAlnums(s3);
  }

  // ---------------------------------------------------------------- how words are separated

  /** A word: non-empty, and every character lower-cases to a letter or digit. */
  predicate Word(w: string) {
    w != [] && forall i :: 0 <= i < |w| ==> IsAlnum(LowerChar(w[i]))
  }

  lemma {:induction false} ReplaceRunsPrefix(a: string, b: string, run: Run, afterRun: bool)
    requires a != [] && forall i :: 0 <= i < |a| ==> !InRun(run, a[i])
    ensures ReplaceRuns(a + b, run, afterRun) == a + ReplaceRuns(b, run, false)
  {
    assert (a + b)[0] == a[0];
    assert (a + b)[1..] == a[1..] + b;
    if |a| > 1 {
      ReplaceRunsPrefix(a[1..], b, run, false);
      assert a == [a[0]] + a[1..];
    } else {
      assert a[1..] + b == b;
    }
  }

  predicate AlnumWord(w: string) {
    w != [] && forall i :: 0 <= i < |w| ==> IsAlnum(w[i])
  }

  lemma LowerOfTwoWords(a: string, b: string)
    requires Word(a) && Word(b)
    ensures AlnumWord(Lower(a)) && AlnumWord(Lower(b))
    ensures Lower(a + " " + b) == Lower(a) + " " + Lower(b)
  {
    LowerAppend(a + " ", b);
    LowerAppend(a, " ");
    assert Lower(" ") == " ";
  }

  lemma StripOfTwoWords(la: string, lb: string)
    requires AlnumWord(la) && AlnumWord(lb)
    ensures StripDisallowed(la + " " + lb) == la + " " + lb
  {
    StripAppend(la + " ", lb);
    StripAppend(la, " ");
    StripOfSlugChars(la);
    StripOfSlugChars(lb);
    assert StripDisallowed(" ") == " ";
  }

  lemma SpaceBecomesHyphen(la: string, lb: string)
    requires AlnumWord(la) && AlnumWord(lb)
    ensures ReplaceRuns(la + " " + lb, Whitespace, false) == la + "-" + lb
  {
    assert la + " " + lb == la + (" " + lb);
    ReplaceRunsPrefix(la, " " + lb, Whitespace, false);
    assert (" " + lb)[1..] == lb;
    NoSpaceRuns(lb, true);
  }

  lemma HyphenJoinIsFinal(la: string, lb: string)
    requires AlnumWord(la) && AlnumWord(lb)
    ensures TrimHyphens(ReplaceRuns(la + "-" + lb, Hyphens, false)) == la + "-" + lb
  {
    var h := la + "-" + lb;
    assert NoDoubleHyphen(h) by {
      forall i | 0 <= i < |h| - 1 ensures h[i] != '-' || h[i + 1] != '-' {
        if i < |la| {
          assert h[i] == la[i];
        } else {
          assert h[i + 1] == lb[i - |la|];
        }
      }
    }
    NoHyphenRuns(h, false);
    assert h[0] == la[0] && h[|h| - 1] == lb[|lb| - 1];
  }

  /** Two words separated by a space become the lower-cased words joined by one '-'. */
  lemma BaseSlugOfTwoWords(a: string, b: string)
    requires Word(a) && Word(b)
    ensures BaseSlug(a + " " + b) == Lower(a) + "-" + Lower(b)
  {
    LowerOfTwoWords(a, b);
    StripOfTwoWords(Lower(a), Lower(b));
    SpaceBecomesHyphen(Lower(a), Lower(b));
    HyphenJoinIsFinal(Lower(a), Lower(b));
  }

  // ---------------------------------------------------------------- what the base slug ignores

  lemma LowerAppend(a: string, b: string)
    ensures Lower(a + b) == Lower(a) + Lower(b)
  {
    assert forall i :: 0 <= i < |a + b| ==> Lower(a + b)[i] == (Lower(a) + Lower(b))[i];
  }

  lemma {:induction false} StripAppend(a: string, b: string)
    ensures StripDisallowed(a + b) == StripDisallowed(a) + StripDisallowed(b)
  {
    if a == [] {
      assert a + b == b;
    } else {
      assert (a + b)[1..] == a[1..] + b;
      StripAppend(a[1..], b);
    }
  }

  /** Characters that are dropped once lower-cased. */
  predicate AllDropped(junk: string) {
    forall i :: 0 <= i < |junk| ==> !Kept(LowerChar(junk[i]))
  }

  lemma {:induction false} StripDropsAll(junk: string)
    requires AllDropped(junk)
    ensures StripDisallowed(Lower(junk)) == ""
  {
    if junk != [] {
      assert AllDropped(junk[1..]) by {
        forall i | 0 <= i < |junk[1..]| ensures !Kept(LowerChar(junk[1..][i])) {
          assert junk[1..][i] == junk[i + 1];
        }
      }
      StripDropsAll(junk[1..]);
      assert Lower(junk) == [LowerChar(junk[0])] + Lower(junk[1..]);
    }
  }

  /**
   * Inserting characters the first replacement deletes (punctuation, symbols, ...)
   * anywhere in the text leaves the base slug unchanged.
   */
  lemma BaseSlugIgnoresDropped(a: string, junk: string, b: string)
    requires AllDropped(junk)
    ensures BaseSlug(a + junk + b) == BaseSlug(a + b)
  {
    LowerAppend(a + junk, b);
    LowerAppend(a, junk);
    LowerAppend(a, b);
    StripAppend(Lower(a) + Lower(junk), Lower(b));
    StripAppend(Lower(a), Lower(junk));
    StripAppend(Lower(a), Lower(b));
    StripDropsAll(junk);
    assert StripDisallowed(Lower(a) + Lower(junk)) == StripDisallowed(Lower(a));
    assert StripDisallowed(Lower(a + junk + b)) == StripDisallowed(Lower(a + b));
  }

  // ---------------------------------------------------------------- idempotence

  lemma {:induction false} LowerOfLowercase(s: string)
    requires AllSlugChars(s)
    ensures Lower(s) == s
  {
  }

  lemma {:induction false} StripOfSlugChars(s: string)
    requires AllSlugChars(s)
    ensures StripDisallowed(s) == s
  {
    if s != [] {
      StripOfSlugChars(s[1..]);
    }
  }

  lemma {:induction false} NoSpaceRuns(s: string, afterRun: bool)
    requires AllSlugChars(s)
    ensures ReplaceRuns(s, Whitespace, afterRun) == s
  {
    if s != [] {
      NoSpaceRuns(s[1..], false);
    }
  }

  lemma {:induction false} NoHyphenRuns(s: string, afterRun: bool)
    requires NoDoubleHyphen(s)
    requires afterRun && s != [] ==> s[0] != '-'
    ensures ReplaceRuns(s, Hyphens, afterRun) == s
  {
    if s != [] {
      assert NoDoubleHyphen(s[1..]) by {
        forall i | 0 <= i < |s[1..]| - 1 ensures s[1..][i] != '-' || s[1..][i + 1] != '-' {
          assert s[1..][i] == s[i + 1] && s[1..][i + 1] == s[i + 2];
        }
      }
      NoHyphenRuns(s[1..], s[0] == '-');
    }
  }

  /** A well-formed slug is its own base slug. */
  lemma WellFormedIsFixpoint(s: string)
    requires WellFormedSlug(s)
    ensures BaseSlug(s) == s
  {
    LowerOfLowercase(s);
    StripOfSlugChars(s);
    NoSpaceRuns(s, false);
    NoHyphenRuns(s, false);
  }

  /** Normalising twice gives what normalising once gives. */
  lemma BaseSlugIdempotent(text: string)
    ensures BaseSlug(BaseSlug(text)) == BaseSlug(text)
  {
    BaseSlugWellFormed(text);
    WellFormedIsFixpoint(BaseSlug(text));
  }

  // ---------------------------------------------------------------- the suffix search

  /** The k-th candidate tried: the base itself, then `base + "-" + k`. */
  function Candidate(base: string, k: nat): string {
    if k == 0 then base else base + "-" + Decimal(k)
  }

  /** Different counters never produce the same candidate. */
  lemma CandidateInjective(base: string, i: nat, j: nat)
    ensures Candidate(base, i) == Candidate(base, j) ==> i == j
  {
    if Candidate(base, i) == Candidate(base, j) && i != 0 && j != 0 {
      var n := |base| + 1;
      assert Candidate(base, i)[n..] == Decimal(i);
      assert Candidate(base, j)[n..] == Decimal(j);
      DecimalInjective(i, j);
    }
  }

  /** `slug` is the first candidate, in counter order, that is not in `existing`. */
  ghost predicate IsFirstFree(base: string, existing: set<string>, slug: string) {
    exists k: nat :: slug == Candidate(base, k) && slug !in existing
      && forall j: nat :: j < k ==> Candidate(base, j) in existing
  }

  /** The first free candidate is unique. */
  lemma FirstFreeUnique(base: string, existing: set<string>, s1: string, s2: string)
    requires IsFirstFree(base, existing, s1) && IsFirstFree(base, existing, s2)
    ensures s1 == s2
  {
    var k1: nat :| s1 == Candidate(base, k1) && s1 !in existing
      && forall j: nat :: j < k1 ==> Candidate(base, j) in existing;
    var k2: nat :| s2 == Candidate(base, k2) && s2 !in existing
      && forall j: nat :: j < k2 ==> Candidate(base, j) in existing;
    assert Candidate(base, k1) !in existing && Candidate(base, k2) !in existing;
    assert k1 == k2;
  }

  /** Marking candidate `k` as tried keeps every tried slug among the first `k + 1` candidates. */
  lemma TriedAreEarlier(base: string, existing: set<string>, untried: set<string>, k: nat)
    requires forall t :: t in existing && t !in untried ==> exists j: nat :: j < k && t == Candidate(base, j)
    ensures forall t :: t in existing && t !in untried - {Candidate(base, k)} ==>
      exists j: nat :: j < k + 1 && t == Candidate(base, j)
  {
    forall t | t in existing && t !in untried - {Candidate(base, k)}
      ensures exists j: nat :: j < k + 1 && t == Candidate(base, j)
    {
      if t == Candidate(base, k) {
      }
    }
  }

  /** A candidate not among the first `k` has not been tried yet. */
  lemma NotYetTried(base: string, existing: set<string>, untried: set<string>, k: nat)
    requires forall t :: t in existing && t !in untried ==> exists j: nat :: j < k && t == Candidate(base, j)
    ensures Candidate(base, k) in existing ==> Candidate(base, k) in untried
  {
    var c := Candidate(base, k);
    if c in existing && c !in untried {
      var j: nat :| j < k && c == Candidate(base, j);
      CandidateInjective(base, j, k);
      assert false;
    }
  }

  /**
   * `generateSlug`: tries the base slug and then base-1, base-2, ... against the slugs
   * stored at call time. The loop ends because the tried candidates are distinct
   * members of the finite set `existing`.
   */
  method GenerateSlug(text: string, existing: set<string>) returns (slug: string)
    ensures slug !in existing
    ensures IsFirstFree(BaseSlug(text), existing, slug)
  {
    var baseSlug := BaseSlug(text);
    slug := baseSlug;
    var counter := 1;
    ghost var untried := existing;
    while slug in existing
      invariant counter >= 1
      invariant slug == Candidate(baseSlug, counter - 1)
      invariant forall j: nat :: j < counter - 1 ==> Candidate(baseSlug, j) in existing
      invariant untried <= existing
      invariant forall t :: t in existing && t !in untried ==>
        exists j: nat :: j < counter - 1 && t == Candidate(baseSlug, j)
      invariant slug in existing ==> slug in untried
      decreases untried
    {
      TriedAreEarlier(baseSlug, existing, untried, counter - 1);
      untried := untried - {slug};
      slug := baseSlug + "-" + Decimal(counter);
      counter := counter + 1;
      NotYetTried(baseSlug, existing, untried, counter - 1);
    }
    assert IsFirstFree(baseSlug, existing, Candidate(baseSlug, counter - 1));
  }

  // ---------------------------------------------------------------- shape of the generated slug

  /** A suffixed candidate of a non-empty base is well formed; one of the empty base is not. */
  lemma CandidateWellFormed(base: string, k: nat)
    requires WellFormedSlug(base)
    ensures WellFormedSlug(Candidate(base, k)) <==> (k == 0 || base != "")
  {
    if k != 0 {
      var c := Candidate(base, k);
      var d := Decimal(k);
      if base == "" {
        assert c[0] == '-';
      } else {
        assert c == base + ['-'] + d;
        forall i | 0 <= i < |c| ensures SlugChar(c[i]) {
          if i < |base| { assert c[i] == base[i]; }
          else if i > |base| { assert c[i] == d[i - |base| - 1]; }
        }
        forall i | 0 <= i < |c| - 1 ensures c[i] != '-' || c[i + 1] != '-' {
          if i < |base| - 1 { assert c[i] == base[i] && c[i + 1] == base[i + 1]; }
          else if i == |base| - 1 { assert c[i] == base[|base| - 1]; }
          else if i == |base| { assert c[i + 1] == d[0]; }
          else { assert c[i] == d[i - |base| - 1]; }
        }
        assert c[0] == base[0];
        assert c[|c| - 1] == d[|d| - 1];
      }
    }
  }

  /** A generated slug is well formed unless the base is empty and already taken. */
  lemma GeneratedSlugShape(text: string, existing: set<string>, slug: string)
    requires IsFirstFree(BaseSlug(text), existing, slug)
    ensures WellFormedSlug(slug) <==> (BaseSlug(text) != "" || "" !in existing)
  {
    var base := BaseSlug(text);
    BaseSlugWellFormed(text);
    var k: nat :| slug == Candidate(base, k) && slug !in existing
      && forall j: nat :: j < k ==> Candidate(base, j) in existing;
    CandidateWellFormed(base, k);
    if k > 0 {
      assert Candidate(base, 0) in existing;
    }
  }

  /**
   * A title with no letter or digit gets the empty slug; once that is taken, every later
   * such title gets '-' followed by a counter: "-1", "-2", ...
   */
  lemma EmptyBaseSuffix(existing: set<string>, slug: string)
    requires IsFirstFree("", existing, slug) && "" in existing
    ensures exists k: nat :: k >= 1 && slug == "-" + Decimal(k)
  {
    var k: nat :| slug == Candidate("", k) && slug !in existing
      && forall j: nat :: j < k ==> Candidate("", j) in existing;
    assert k >= 1;
    assert "" + "-" + Decimal(k) == "-" + Decimal(k);
  }
}
