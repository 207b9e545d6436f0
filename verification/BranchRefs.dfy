/**
Resolving pull-request refs to a branch and a commit: one name at a time with `git rev-parse`, and
many at once with one `git cat-file --batch-check`, whose text output has to be paired with the names.
*/
module BranchRefs {
  import opened Wrappers
  import opened Text

  /**
  What a look-up answers for a name.  Two look-ups occur, and git does not answer them alike: `check` is
  `git cat-file --batch-check`, `verify` is `git rev-parse --verify`.
  */
  type Resolver = string -> Option<string>

  // ---------------------------------------------------------------- Python's text functions

  /** Characters at which `splitlines` cuts. */
  predicate IsBreak(c: char) {
    || '\n' <= c <= '\r'
    || '\U{1C}' <= c <= '\U{1E}'
    || c == '\U{85}'
    || '\U{2028}' <= c <= '\U{2029}'
  }

  /** Characters that `strip` removes. */
  predicate IsSpace(c: char) {
    || IsBreak(c)
    || c == '\t' || c == '\U{1F}' || c == ' ' || c == '\U{A0}' || c == '\U{1680}'
    || '\U{2000}' <= c <= '\U{200A}'
    || c == '\U{202F}' || c == '\U{205F}' || c == '\U{3000}'
  }

  predicate NoBreak(s: string) {
    forall k :: 0 <= k < |s| ==> !IsBreak(s[k])
  }

  predicate NoSpace(s: string) {
    forall k :: 0 <= k < |s| ==> !IsSpace(s[k])
  }

  predicate Blank(s: string) {
    forall k :: 0 <= k < |s| ==> IsSpace(s[k])
  }

  function StripLeft(s: string): string {
    if s != "" && IsSpace(s[0]) then StripLeft(s[1..]) else s
  }

  function StripRight(s: string): string {
    if s != "" && IsSpace(s[|s| - 1]) then StripRight(s[..|s| - 1]) else s
  }

  function Strip(s: string): string {
    StripRight(StripLeft(s))
  }

  /** Puts a character in front of the first of several lines. */
  function OnFirst(c: char, lines: seq<string>): (r: seq<string>)
    requires lines != []
    ensures |r| == |lines|
  {
    [[c] + lines[0]] + lines[1..]
  }

  /** How many characters the break at the start of the text takes: a carriage return with a newline is one break. */
  function Width(s: string): nat
    requires s != ""
  {
    if s[0] == '\r' && |s| > 1 && s[1] == '\n' then 2 else 1
  }

  /** `s.splitlines()`: no line follows the last break. */
  function SplitBreaks(s: string): seq<string>
    decreases |s|
  {
    if s == "" then []
    else if IsBreak(s[0]) then [""] + SplitBreaks(s[Width(s)..])
    else
      var rest := SplitBreaks(s[1..]);
      if rest == [] then [s] else OnFirst(s[0], rest)
  }

  // ---------------------------------------------------------------- the batch

  const MISSING := " missing"

  /** The name `cat-file` takes from an input line: git drops a carriage return before the newline. */
  function Sent(name: string): string {
    if name != "" && name[|name| - 1] == '\r' then name[..|name| - 1] else name
  }

  /** The line `cat-file --batch-check=%(objectname)` prints for one name. */
  function BatchLine(name: string, check: Resolver): string {
    if check(Sent(name)).Some? then check(Sent(name)).value else Sent(name) + MISSING
  }

  function BatchOutput(names: seq<string>, check: Resolver): string {
    if names == [] then "" else BatchLine(names[0], check) + ("\n" + BatchOutput(names[1..], check))
  }

  /** What the caller makes of one line of output. */
  function ReadLine(line: string): Option<string> {
    var sha := Strip(line);
    if sha != "" && ' ' !in sha then Some(sha) else None
  }

  predicate IsHexadecimal(s: string) {
    s != "" && forall k :: 0 <= k < |s| ==> '0' <= s[k] <= '9' || 'a' <= s[k] <= 'f'
  }

  /** The batch prints object names. */
  ghost predicate ObjectNames(check: Resolver) {
    forall name: string :: check(name).Some? ==> IsHexadecimal(check(name).value)
  }

  /** The single look-up prints an object name, after a caret if it was asked with one. */
  ghost predicate Revisions(verify: Resolver) {
    forall name: string :: verify(name).Some? ==>
      IsHexadecimal(verify(name).value) || StartsWith(verify(name).value, "^")
  }

  lemma {:induction false} StripLeftConcat(a: string, b: string)
    requires b != "" && IsSpace(b[0])
    ensures StripLeft(a + b) == if Blank(a) then StripLeft(b) else StripLeft(a) + b
    ensures !Blank(a) ==> StripLeft(a) != ""
    decreases |a|
  {
    if a == "" {
      assert a + b == b;
    } else {
      assert (a + b)[0] == a[0] && (a + b)[1..] == a[1..] + b;
      StripLeftConcat(a[1..], b);
      assert Blank(a) <==> IsSpace(a[0]) && Blank(a[1..]) by {
        if IsSpace(a[0]) && Blank(a[1..]) {
          forall k | 0 <= k < |a| ensures IsSpace(a[k]) { assert k > 0 ==> a[k] == a[1..][k - 1]; }
        }
      }
    }
  }

  /** The line for an unresolved name reads as unresolved, unless the name is blank. */
  lemma MissingLine(name: string)
    ensures ReadLine(name + MISSING) == if Blank(name) then Some("missing") else None
  {
    StripLeftConcat(name, MISSING);
    assert StripLeft(MISSING) == "missing" by { assert MISSING[1..] == "missing"; }
    var left := StripLeft(name + MISSING);
    if Blank(name) {
      assert left == "missing";
      assert ' ' !in "missing";
    } else {
      assert left[|left| - 1] == MISSING[|MISSING| - 1] == 'g';
      assert Strip(name + MISSING) == left;
      assert left[|StripLeft(name)|] == ' ';
    }
  }

  predicate EndsClean(line: string) {
    line != "" ==> line[|line| - 1] != '\r'
  }

  /** The pieces a printed line makes. */
  function Pieces(line: string): (r: seq<string>)
    ensures |r| >= 1
    decreases |line|
  {
    if line == "" then [""]
    else if IsBreak(line[0]) then [""] + Pieces(line[Width(line)..])
    else OnFirst(line[0], Pieces(line[1..]))
  }

  /** One piece, the line itself, exactly when it holds no break. */
  lemma {:induction false} PiecesAlone(line: string)
    ensures if NoBreak(line) then Pieces(line) == [line] else |Pieces(line)| > 1
    decreases |line|
  {
    if line != "" && !IsBreak(line[0]) {
      PiecesAlone(line[1..]);
      assert line == [line[0]] + line[1..];
    }
  }

  lemma OnFirstConcat(c: char, a: seq<string>, b: seq<string>)
    requires a != []
    ensures OnFirst(c, a + b) == OnFirst(c, a) + b
  {
    assert (a + b)[1..] == a[1..] + b;
  }

  /** A printed line breaks into its own pieces, whatever follows it. */
  lemma {:induction false} LineBreaksOff(line: string, rest: string)
    requires EndsClean(line)
    ensures SplitBreaks(line + ("\n" + rest)) == Pieces(line) + SplitBreaks(rest)
    decreases |line|
  {
    var tail := "\n" + rest;
    if line == "" {
      assert line + tail == tail && tail[1..] == rest;
    } else if IsBreak(line[0]) {
      var w := Width(line);
      assert (line + tail)[w..] == line[w..] + tail;
      LineBreaksOff(line[w..], rest);
      assert [""] + (Pieces(line[w..]) + SplitBreaks(rest)) == [""] + Pieces(line[w..]) + SplitBreaks(rest);
    } else {
      assert (line + tail)[1..] == line[1..] + tail;
      LineBreaksOff(line[1..], rest);
      OnFirstConcat(line[0], Pieces(line[1..]), SplitBreaks(rest));
    }
  }

  lemma HexadecimalReads(line: string)
    requires IsHexadecimal(line)
    ensures NoBreak(line) && EndsClean(line) && ReadLine(line) == Some(line) && line != "missing"
  {
    assert NoSpace(line);
    assert Strip(line) == line;
    assert "missing"[0] == 'm';
  }

  lemma BatchLineFacts(name: string, check: Resolver)
    requires ObjectNames(check)
    ensures EndsClean(BatchLine(name, check))
    ensures NoBreak(BatchLine(name, check)) <==> check(Sent(name)).Some? || NoBreak(Sent(name))
    ensures ReadLine(BatchLine(name, check))
         == if check(Sent(name)).Some? then check(Sent(name))
           else if Blank(Sent(name)) then Some("missing") else None
  {
    var line, sent := BatchLine(name, check), Sent(name);
    if check(sent).Some? {
      HexadecimalReads(line);
    } else {
      MissingLine(sent);
      assert line[|line| - 1] == MISSING[|MISSING| - 1] == 'g';
      forall k | 0 <= k < |line| ensures IsBreak(line[k]) <==> k < |sent| && IsBreak(sent[k]) {
        if k >= |sent| { assert line[k] == MISSING[k - |sent|]; }
      }
    }
  }

  function BatchLines(names: seq<string>, check: Resolver): (r: seq<string>)
    ensures |r| == |names|
  {
    seq(|names|, i requires 0 <= i < |names| => BatchLine(names[i], check))
  }

  /** Names whose batch lines can be told apart by line: the others print more than one line each. */
  predicate OneLineEach(names: seq<string>, check: Resolver) {
    forall i :: 0 <= i < |names| ==> check(Sent(names[i])).Some? || NoBreak(Sent(names[i]))
  }

  lemma OneLineEachFirst(names: seq<string>, check: Resolver)
    requires names != []
    ensures OneLineEach(names, check)
       <==> (check(Sent(names[0])).Some? || NoBreak(Sent(names[0]))) && OneLineEach(names[1..], check)
    ensures BatchLines(names, check) == [BatchLine(names[0], check)] + BatchLines(names[1..], check)
  {
    assert names == [names[0]] + names[1..];
  }

  /** The output has as many lines as there are names exactly when it is one line per name, in order. */
  lemma {:induction false} OutputLines(names: seq<string>, check: Resolver)
    requires ObjectNames(check)
    ensures |SplitBreaks(BatchOutput(names, check))| >= |names|
    ensures |SplitBreaks(BatchOutput(names, check))| == |names| <==> OneLineEach(names, check)
    ensures OneLineEach(names, check) ==> SplitBreaks(BatchOutput(names, check)) == BatchLines(names, check)
    decreases |names|
  {
    if names != [] {
      var line, rest := BatchLine(names[0], check), BatchOutput(names[1..], check);
      OutputLines(names[1..], check);
      OneLineEachFirst(names, check);
      BatchLineFacts(names[0], check);
      PiecesAlone(line);
      LineBreaksOff(line, rest);
    }
  }

  // ---------------------------------------------------------------- resolve_refs

  /** The names that are looked up at all. */
  function Wanted(refs: seq<string>): set<string> {
    set ref | ref in refs && ref != "" && '\n' !in ref
  }

  /** Whether the batch's output is used; otherwise every name is looked up on its own. */
  predicate Paired(names: set<string>, check: Resolver, failed: bool) {
    !failed && forall name :: name in names ==> check(Sent(name)).Some? || NoBreak(Sent(name))
  }

  function Looked(name: string, paired: bool, check: Resolver, verify: Resolver): Option<string> {
    if paired then ReadLine(BatchLine(name, check)) else verify(name)
  }

  method DistinctNames(refs: seq<string>) returns (names: seq<string>)
    ensures forall name :: name in names <==> name in Wanted(refs)
    ensures forall i, j :: 0 <= i < j < |names| ==> names[i] != names[j]
  {
    names := [];
    for i := 0 to |refs|
      invariant forall i, j :: 0 <= i < j < |names| ==> names[i] != names[j]
      invariant forall name :: name in names <==> name in Wanted(refs[..i])
    {
      assert refs[..i + 1] == refs[..i] + [refs[i]];
      if refs[i] != "" && '\n' !in refs[i] && refs[i] !in names {
        names := names + [refs[i]];
      }
    }
    assert refs[..|refs|] == refs;
  }

  /** `failed` says that the batch process reported an error. */
  method ResolveRefs(refs: seq<string>, check: Resolver, verify: Resolver, failed: bool)
    returns (resolved: map<string, Option<string>>)
    requires ObjectNames(check)
    ensures resolved.Keys == Wanted(refs)
    ensures forall name :: name in resolved ==>
              resolved[name] == Looked(name, Paired(Wanted(refs), check, failed), check, verify)
  {
    var names := DistinctNames(refs);
    if names == [] { return map[]; }
    var lines := SplitBreaks(BatchOutput(names, check));
    OutputLines(names, check);
    PairedIsOneLineEach(names, Wanted(refs), check);
    if failed || |lines| != |names| {
      resolved := LookUpEach(names, verify);
    } else {
      resolved := PairLines(names, lines, check);
    }
  }

  lemma PairedIsOneLineEach(names: seq<string>, wanted: set<string>, check: Resolver)
    requires forall name :: name in names <==> name in wanted
    ensures OneLineEach(names, check) <==> Paired(wanted, check, false)
  {
    if OneLineEach(names, check) {
      forall name | name in wanted ensures check(Sent(name)).Some? || NoBreak(Sent(name)) {
        var i :| 0 <= i < |names| && names[i] == name;
      }
    }
  }

  method LookUpEach(names: seq<string>, verify: Resolver) returns (resolved: map<string, Option<string>>)
    ensures forall name :: name in resolved <==> name in names
    ensures forall name :: name in resolved ==> resolved[name] == verify(name)
  {
    resolved := map[];
    for i := 0 to |names|
      invariant forall name :: name in resolved <==> name in names[..i]
      invariant forall name :: name in resolved ==> resolved[name] == verify(name)
    {
      resolved := resolved[names[i] := verify(names[i])];
    }
  }

  method PairLines(names: seq<string>, lines: seq<string>, ghost check: Resolver)
    returns (resolved: map<string, Option<string>>)
    requires lines == BatchLines(names, check)
    ensures forall name :: name in resolved <==> name in names
    ensures forall name :: name in resolved ==> resolved[name] == ReadLine(BatchLine(name, check))
  {
    resolved := map[];
    for i := 0 to |names|
      invariant forall name :: name in resolved <==> name in names[..i]
      invariant forall name :: name in resolved ==> resolved[name] == ReadLine(BatchLine(name, check))
    {
      resolved := resolved[names[i] := ReadLine(lines[i])];
    }
  }

  // ---------------------------------------------------------------- candidates

  function ColonAt(ref: string): (k: nat)
    ensures k <= |ref| && (k < |ref| ==> ref[k] == ':') && (k == |ref| <==> ':' !in ref)
  {
    if ref == "" || ref[0] == ':' then 0 else ColonAt(ref[1..]) + 1
  }

  /** A ref labelled `owner:branch` is tried as `branch` first, when the owner is the expected one. */
  function Candidates(ref: string, owner: Option<string>): (r: seq<string>)
    ensures ref != "" ==> "" !in r
  {
    var k := ColonAt(ref);
    if k < |ref| && k + 1 < |ref| && (owner.None? || ref[..k] == owner.value) then [ref[k + 1..], ref] else [ref]
  }

  /** The first candidate with an answer, and the answer; the ref itself when there is none. */
  function FirstAnswer(candidates: seq<string>, answers: Resolver, ref: string): (string, Option<string>) {
    if candidates == [] then (ref, None)
    else if answers(candidates[0]).Some? then (candidates[0], answers(candidates[0]))
    else FirstAnswer(candidates[1..], answers, ref)
  }

  function Answer(ref: string, owner: Option<string>, answers: Resolver): (string, Option<string>) {
    if ref == "" then (ref, None) else FirstAnswer(Candidates(ref, owner), answers, ref)
  }

  /** `normalize_branch_ref`. */
  function Single(ref: string, owner: Option<string>, verify: Resolver): (string, Option<string>) {
    Answer(ref, owner, verify)
  }

  method NormalizeBranchRef(ref: string, owner: Option<string>, verify: Resolver)
    returns (r: (string, Option<string>))
    ensures r == Single(ref, owner, verify)
  {
    if ref == "" { return (ref, None); }
    var candidates := Candidates(ref, owner);
    for i := 0 to |candidates|
      invariant FirstAnswer(candidates, verify, ref) == FirstAnswer(candidates[i..], verify, ref)
    {
      var sha := verify(candidates[i]);
      if sha.Some? { return (candidates[i], sha); }
    }
    return (ref, None);
  }

  function AllCandidates(refs: seq<string>, owner: Option<string>): seq<string> {
    if refs == [] then []
    else AllCandidates(refs[..|refs| - 1], owner)
         + if refs[|refs| - 1] == "" then [] else Candidates(refs[|refs| - 1], owner)
  }

  /** What the batch answers for a candidate; one it did not look up has no answer. */
  function BatchAnswers(wanted: set<string>, check: Resolver, verify: Resolver, failed: bool): Resolver {
    name => if name in wanted then Looked(name, Paired(wanted, check, failed), check, verify) else None
  }

  /** `normalize_branch_refs`, for one of its refs. */
  function Batched(refs: seq<string>, ref: string, owner: Option<string>, check: Resolver, verify: Resolver,
                   failed: bool): (string, Option<string>) {
    Answer(ref, owner, BatchAnswers(Wanted(AllCandidates(refs, owner)), check, verify, failed))
  }

  method GatherCandidates(refs: seq<string>, owner: Option<string>) returns (wanted: seq<string>)
    ensures wanted == AllCandidates(refs, owner)
  {
    wanted := [];
    for i := 0 to |refs|
      invariant wanted == AllCandidates(refs[..i], owner)
    {
      assert refs[..i + 1][..i] == refs[..i];
      if refs[i] != "" {
        wanted := wanted + Candidates(refs[i], owner);
      }
    }
    assert refs[..|refs|] == refs;
  }

  method NormalizeBranchRefs(refs: seq<string>, owner: Option<string>, check: Resolver, verify: Resolver, failed: bool)
    returns (result: map<string, (string, Option<string>)>)
    requires ObjectNames(check)
    ensures forall ref :: ref in result <==> ref in refs
    ensures forall ref :: ref in result ==> result[ref] == Batched(refs, ref, owner, check, verify, failed)
  {
    var wanted := GatherCandidates(refs, owner);
    var resolved := ResolveRefs(wanted, check, verify, failed);
    ghost var answers := BatchAnswers(Wanted(wanted), check, verify, failed);
    result := ChooseEach(refs, owner, resolved, answers);
  }

  method ChooseEach(refs: seq<string>, owner: Option<string>, resolved: map<string, Option<string>>,
                    ghost answers: Resolver)
    returns (result: map<string, (string, Option<string>)>)
    requires forall name :: answers(name) == if name in resolved then resolved[name] else None
    ensures forall ref :: ref in result <==> ref in refs
    ensures forall ref :: ref in result ==> result[ref] == Answer(ref, owner, answers)
  {
    result := map[];
    for i := 0 to |refs|
      invariant forall ref :: ref in result <==> ref in refs[..i]
      invariant forall ref :: ref in result ==> result[ref] == Answer(ref, owner, answers)
    {
      var entry := (refs[i], None);
      if refs[i] != "" {
        entry := FirstResolved(Candidates(refs[i], owner), resolved, refs[i], answers);
      }
      result := result[refs[i] := entry];
    }
  }

  /** The generator that stops at the first candidate the batch resolved. */
  method FirstResolved(candidates: seq<string>, resolved: map<string, Option<string>>, ref: string,
                       ghost answers: Resolver)
    returns (entry: (string, Option<string>))
    requires forall name :: answers(name) == if name in resolved then resolved[name] else None
    ensures entry == FirstAnswer(candidates, answers, ref)
  {
    for i := 0 to |candidates|
      invariant FirstAnswer(candidates, answers, ref) == FirstAnswer(candidates[i..], answers, ref)
    {
      if candidates[i] in resolved && resolved[candidates[i]].Some? {
        return (candidates[i], resolved[candidates[i]]);
      }
    }
    return (ref, None);
  }

  lemma {:induction false} ColonAfter(owner: string, branch: string)
    requires ':' !in owner
    ensures ColonAt(owner + (":" + branch)) == |owner|
    decreases |owner|
  {
    var ref := owner + (":" + branch);
    if owner != "" {
      assert ref[1..] == owner[1..] + (":" + branch);
      ColonAfter(owner[1..], branch);
    }
  }

  /**
  A label-style ref `owner:branch` means that branch when it exists and the owner is acceptable;
  otherwise it is only ever looked up as it stands.
  */
  lemma BranchOfLabelPreferred(owner: string, branch: string, expected: Option<string>, verify: Resolver)
    requires ':' !in owner && branch != ""
    ensures var ref := owner + (":" + branch);
            Single(ref, expected, verify)
              == (if (expected.None? || expected.value == owner) && verify(branch).Some?
                then (branch, verify(branch))
                  else (ref, verify(ref)))
  {
    var ref := owner + (":" + branch);
    ColonAfter(owner, branch);
    assert ref[..|owner|] == owner && ref[|owner| + 1..] == branch;
    OnlyCandidate(ref, verify);
    assert [branch, ref][1..] == [ref];
  }

  // ---------------------------------------------------------------- the two forms agree

  /**
  Candidates the batch answers differently from a single look-up: a name with a newline that verifies,
  which the batch leaves out; a name that the batch's look-up, which sees it without a last carriage
  return, answers differently; and a blank name with no answer, whose line strips to the word `missing`.
  */
  predicate Misread(candidate: string, check: Resolver, verify: Resolver, paired: bool) {
    if '\n' in candidate then verify(candidate).Some?
    else
      && paired
      && (check(Sent(candidate)) != verify(candidate) || (verify(candidate).None? && Blank(Sent(candidate))))
  }

  /** Such a candidate is reached: no candidate before it has an answer alone. */
  predicate MisreadReached(candidates: seq<string>, check: Resolver, verify: Resolver, paired: bool) {
    exists i :: 0 <= i < |candidates| && ReachedAt(candidates, check, verify, paired, i)
  }

  predicate ReachedAt(candidates: seq<string>, check: Resolver, verify: Resolver, paired: bool, i: nat)
    requires i < |candidates|
  {
    Misread(candidates[i], check, verify, paired) && forall j :: 0 <= j < i ==> verify(candidates[j]).None?
  }

  lemma ReachedUnfolds(candidates: seq<string>, check: Resolver, verify: Resolver, paired: bool)
    requires candidates != []
    ensures MisreadReached(candidates, check, verify, paired)
       <==> Misread(candidates[0], check, verify, paired)
            || (verify(candidates[0]).None? && MisreadReached(candidates[1..], check, verify, paired))
  {
    var rest := candidates[1..];
    if verify(candidates[0]).None? && MisreadReached(rest, check, verify, paired) {
      var i :| 0 <= i < |rest| && ReachedAt(rest, check, verify, paired, i);
      forall j | 0 <= j < i + 1 ensures verify(candidates[j]).None? {
        if j > 0 { assert candidates[j] == rest[j - 1]; }
      }
      assert ReachedAt(candidates, check, verify, paired, i + 1);
    }
    if Misread(candidates[0], check, verify, paired) {
      assert ReachedAt(candidates, check, verify, paired, 0);
    } else if MisreadReached(candidates, check, verify, paired) {
      var i :| 0 <= i < |candidates| && ReachedAt(candidates, check, verify, paired, i);
      assert i > 0 && rest[i - 1] == candidates[i];
      forall j | 0 <= j < i - 1 ensures verify(rest[j]).None? { assert rest[j] == candidates[j + 1]; }
      assert ReachedAt(rest, check, verify, paired, i - 1);
    }
  }

  lemma {:induction false} AnswerIsItsOwn(candidates: seq<string>, answers: Resolver, ref: string)
    ensures var (name, sha) := FirstAnswer(candidates, answers, ref); sha.Some? ==> sha == answers(name)
    decreases |candidates|
  {
    if candidates != [] {
      AnswerIsItsOwn(candidates[1..], answers, ref);
    }
  }

  /** A look-up in a paired batch answers as the single one exactly when the name is not misread. */
  lemma LookedAgreesIff(name: string, check: Resolver, verify: Resolver)
    requires ObjectNames(check) && Revisions(verify) && '\n' !in name
    ensures Looked(name, true, check, verify) == verify(name) <==> !Misread(name, check, verify, true)
  {
    BatchLineFacts(name, check);
    assert "missing"[0] == 'm';
    assert !IsHexadecimal("missing") && !StartsWith("missing", "^");
  }

  lemma {:induction false} FirstAnswersAgreeIff(candidates: seq<string>, wanted: set<string>, check: Resolver,
                                                verify: Resolver, failed: bool, ref: string)
    requires ObjectNames(check) && Revisions(verify)
    requires forall i :: 0 <= i < |candidates| ==> (candidates[i] in wanted <==> '\n' !in candidates[i])
    ensures FirstAnswer(candidates, BatchAnswers(wanted, check, verify, failed), ref)
              == FirstAnswer(candidates, verify, ref)
       <==> !MisreadReached(candidates, check, verify, Paired(wanted, check, failed))
    decreases |candidates|
  {
    if candidates != [] {
      var rest := candidates[1..];
      FirstAnswersAgreeIff(rest, wanted, check, verify, failed, ref);
      ReachedUnfolds(candidates, check, verify, Paired(wanted, check, failed));
      if '\n' !in candidates[0] {
        LookedAgreesIff(candidates[0], check, verify);
      }
      AnswerIsItsOwn(rest, verify, ref);
      AnswerIsItsOwn(rest, BatchAnswers(wanted, check, verify, failed), ref);
    }
  }

  lemma {:induction false} CandidatesAreWanted(refs: seq<string>, owner: Option<string>, ref: string)
    requires ref in refs && ref != ""
    ensures forall c :: c in Candidates(ref, owner) ==> c in AllCandidates(refs, owner)
    decreases |refs|
  {
    var n := |refs| - 1;
    assert refs == refs[..n] + [refs[n]];
    if ref != refs[n] {
      CandidatesAreWanted(refs[..n], owner, ref);
    }
  }

  /**
  For every list of refs, every pair of look-ups, and both ways the batch can go, a ref gets the same
  branch and commit from the batch as on its own, exactly when no misread candidate of it is reached.
  */
  lemma BatchEqualsSingleIff(refs: seq<string>, ref: string, owner: Option<string>, check: Resolver, verify: Resolver,
                             failed: bool)
    requires ObjectNames(check) && Revisions(verify) && ref in refs && ref != ""
    ensures Batched(refs, ref, owner, check, verify, failed) == Single(ref, owner, verify)
       <==> !MisreadReached(Candidates(ref, owner), check, verify,
                            Paired(Wanted(AllCandidates(refs, owner)), check, failed))
  {
    CandidatesAreWanted(refs, owner, ref);
    FirstAnswersAgreeIff(Candidates(ref, owner), Wanted(AllCandidates(refs, owner)), check, verify, failed, ref);
  }

  // ---------------------------------------------------------------- where git's two look-ups differ

  /** A repository: the objects it stores, by full name, and what its other names stand for. */
  datatype Store = Store(objects: set<string>, named: string -> Option<string>)

  predicate IsHexDigit(c: char) {
    '0' <= c <= '9' || 'a' <= c <= 'f' || 'A' <= c <= 'F'
  }

  /** A text git takes for the full name of an object without looking further. */
  predicate IsFullName(s: string) {
    |s| == 40 && forall k :: 0 <= k < |s| ==> IsHexDigit(s[k])
  }

  ghost predicate NamesObjects(store: Store) {
    forall name: string :: store.named(name).Some? ==> IsHexadecimal(store.named(name).value)
  }

  /** The batch look-up wants the object to be there. */
  function Check(store: Store): Resolver {
    name => if IsFullName(name) then if ToLower(name) in store.objects then Some(ToLower(name)) else None
            else if StartsWith(name, "^") then None
            else store.named(name)
  }

  /** The single look-up takes a full name for granted, and a caret before a name for an exclusion. */
  function Verify(store: Store): Resolver {
    name => if !StartsWith(name, "^") then Plain(store, name)
            else if Plain(store, name[1..]).None? then None
            else Some("^" + Plain(store, name[1..]).value)
  }

  function Plain(store: Store, name: string): Option<string> {
    if IsFullName(name) then Some(ToLower(name))
    else if StartsWith(name, "^") then None
    else store.named(name)
  }

  /** The two differ on the full name of an object that is not there, and on what a caret excludes, and nowhere else. */
  predicate LookedUpApart(store: Store, name: string) {
    || (IsFullName(name) && ToLower(name) !in store.objects)
    || (StartsWith(name, "^") && Plain(store, name[1..]).Some?)
  }

  lemma LowerIsHexadecimal(s: string)
    requires IsFullName(s)
    ensures IsHexadecimal(ToLower(s))
  {
    forall k | 0 <= k < |s| ensures '0' <= ToLower(s)[k] <= '9' || 'a' <= ToLower(s)[k] <= 'f' {
      assert IsHexDigit(s[k]);
    }
  }

  lemma CaretIsNotFull(s: string)
    ensures StartsWith(s, "^") ==> !IsFullName(s)
  {
    if StartsWith(s, "^") { assert s[0] == '^'; }
  }

  lemma LookUpsDifferIff(store: Store, name: string)
    requires NamesObjects(store)
    ensures Check(store)(name) != Verify(store)(name) <==> LookedUpApart(store, name)
  {
    CaretIsNotFull(name);
  }

  lemma LookUpsAnswerNames(store: Store)
    requires NamesObjects(store)
    ensures ObjectNames(Check(store)) && Revisions(Verify(store))
  {
    forall name: string | IsFullName(name) ensures IsHexadecimal(ToLower(name)) { LowerIsHexadecimal(name); }
    forall name: string | Plain(store, name).Some? ensures StartsWith("^" + Plain(store, name).value, "^") { }
  }

  /** Of the names a repository can hold, those are misread that the look-ups tell apart, and blank ones it lacks. */
  lemma MisreadOnStoreIff(store: Store, name: string)
    requires NamesObjects(store) && '\n' !in name && EndsClean(name)
    ensures Misread(name, Check(store), Verify(store), true)
       <==> LookedUpApart(store, name) || (Blank(name) && Verify(store)(name).None?)
  {
    LookUpsDifferIff(store, name);
  }

  /** The batch and the single form agree on one ref when nothing about its candidates tells them apart. */
  lemma BatchEqualsSingleFor(refs: seq<string>, ref: string, owner: Option<string>, store: Store, failed: bool)
    requires NamesObjects(store) && ref in refs && ref != ""
    requires forall c :: c in Candidates(ref, owner) ==>
               && ('\n' in c ==> Verify(store)(c).None?)
               && (failed || (!Blank(c) && EndsClean(c) && !LookedUpApart(store, c)))
    ensures Batched(refs, ref, owner, Check(store), Verify(store), failed) == Single(ref, owner, Verify(store))
  {
    var candidates := Candidates(ref, owner);
    var paired := Paired(Wanted(AllCandidates(refs, owner)), Check(store), failed);
    LookUpsAnswerNames(store);
    forall i | 0 <= i < |candidates| ensures !Misread(candidates[i], Check(store), Verify(store), paired) {
      if '\n' !in candidates[i] && paired { MisreadOnStoreIff(store, candidates[i]); }
    }
    assert !MisreadReached(candidates, Check(store), Verify(store), paired);
    BatchEqualsSingleIff(refs, ref, owner, Check(store), Verify(store), failed);
  }

  /**
  On a repository the two forms agree on every ref of every list whose candidates are not blank, do not
  end in a carriage return, and are neither absent full names nor exclusions, when no name with a
  newline resolves.
  */
  lemma BatchEqualsSingle(refs: seq<string>, owner: Option<string>, store: Store, failed: bool)
    requires NamesObjects(store)
    requires forall name: string :: '\n' in name ==> Verify(store)(name).None?
    requires failed || forall c :: c in AllCandidates(refs, owner) ==>
               !Blank(c) && EndsClean(c) && !LookedUpApart(store, c)
    ensures forall ref :: ref in refs ==>
              Batched(refs, ref, owner, Check(store), Verify(store), failed) == Single(ref, owner, Verify(store))
  {
    forall ref | ref in refs
      ensures Batched(refs, ref, owner, Check(store), Verify(store), failed) == Single(ref, owner, Verify(store))
    {
      if ref != "" {
        CandidatesAreWanted(refs, owner, ref);
        BatchEqualsSingleFor(refs, ref, owner, store, failed);
      }
    }
  }

  lemma OnlyCandidate(ref: string, answers: Resolver)
    ensures FirstAnswer([ref], answers, ref) == (ref, answers(ref))
  {
    assert [ref][1..] == [];
  }

  lemma OnlyRef(ref: string)
    requires ref != "" && ':' !in ref && '\n' !in ref
    ensures Candidates(ref, None) == [ref]
    ensures Wanted(AllCandidates([ref], None)) == {ref}
  {
    assert [ref][..0] == [];
    assert AllCandidates([ref], None) == [ref];
    assert ref in [ref];
  }

  /** A ref looked up alone, and in a batch of its own. */
  lemma AloneAndBatched(ref: string, check: Resolver, verify: Resolver)
    requires ref != "" && ':' !in ref && '\n' !in ref && (check(Sent(ref)).Some? || NoBreak(Sent(ref)))
    ensures Single(ref, None, verify) == (ref, verify(ref))
    ensures Batched([ref], ref, None, check, verify, false) == (ref, ReadLine(BatchLine(ref, check)))
  {
    OnlyRef(ref);
    OnlyCandidate(ref, verify);
    OnlyCandidate(ref, BatchAnswers({ref}, check, verify, false));
  }

  /** The full name of an object the repository lacks: alone it is its own commit, in the batch it has none. */
  lemma AbsentNameIsMisread(ref: string, store: Store)
    requires NamesObjects(store) && IsFullName(ref) && ToLower(ref) !in store.objects
    ensures Single(ref, None, Verify(store)) == (ref, Some(ToLower(ref)))
    ensures Batched([ref], ref, None, Check(store), Verify(store), false) == (ref, None)
  {
    LookUpsAnswerNames(store);
    CaretIsNotFull(ref);
    forall k | 0 <= k < |ref| ensures ref[k] != ':' && !IsBreak(ref[k]) && !IsSpace(ref[k]) {
      assert IsHexDigit(ref[k]);
    }
    assert Sent(ref) == ref && !Blank(ref) by { assert IsHexDigit(ref[39]) && IsHexDigit(ref[0]); }
    AloneAndBatched(ref, Check(store), Verify(store));
    BatchLineFacts(ref, Check(store));
  }

  /** An exclusion of a branch: alone its commit is a caret and the branch's, in the batch it has none. */
  lemma ExclusionIsMisread(name: string, store: Store)
    requires NamesObjects(store) && store.named(name).Some? && !IsFullName(name) && !StartsWith(name, "^")
    requires ':' !in name && NoBreak(name)
    ensures Single("^" + name, None, Verify(store)) == ("^" + name, Some("^" + store.named(name).value))
    ensures Batched(["^" + name], "^" + name, None, Check(store), Verify(store), false) == ("^" + name, None)
  {
    var ref := "^" + name;
    LookUpsAnswerNames(store);
    CaretIsNotFull(ref);
    assert ref[1..] == name && ref[0] == '^' && StartsWith(ref, "^");
    assert '\n' !in ref && NoBreak(ref) && Sent(ref) == ref && !Blank(ref);
    AloneAndBatched(ref, Check(store), Verify(store));
    BatchLineFacts(ref, Check(store));
  }

  /** A blank ref that names nothing: alone it has no commit, in a batch of its own its commit is `missing`. */
  lemma BlankRefIsMisread(ref: string, check: Resolver, verify: Resolver)
    requires ref != "" && Blank(ref) && NoBreak(ref) && check(ref).None? && verify(ref).None?
    ensures Single(ref, None, verify) == (ref, None)
    ensures Batched([ref], ref, None, check, verify, false) == (ref, Some("missing"))
  {
    assert ':' !in ref && '\n' !in ref && Sent(ref) == ref;
    AloneAndBatched(ref, check, verify);
    MissingLine(ref);
  }

  /** A branch with a carriage return after its name: alone it has no commit, in a batch it has the branch's. */
  lemma TrailingReturnIsMisread(name: string, check: Resolver, verify: Resolver)
    requires ObjectNames(check) && ':' !in name && '\n' !in name
    requires check(name).Some? && verify(name + "\r").None?
    ensures Single(name + "\r", None, verify) == (name + "\r", None)
    ensures Batched([name + "\r"], name + "\r", None, check, verify, false) == (name + "\r", check(name))
  {
    var ref := name + "\r";
    assert Sent(ref) == name;
    AloneAndBatched(ref, check, verify);
    BatchLineFacts(ref, check);
  }
}
