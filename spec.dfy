/** The timeline builder (src/spec.rs): the spoken-word-only transcript sent to the aligner,
    the scan that turns top-level brace groups of the transcript into markers, and the
    reassociation of markers with the aligner's word timings. */
module Spec {
  import opened Wrappers
  import opened Gentle
  import Timeline

  /** The ways building a timeline aborts. `DepthUnderflow` is the `usize` subtraction
      `json_depth -= 1` at depth 0 (a '}' with no open '{'), at transcript character `index`;
      `BadJson` is "Bad JSON at character {offset}"; `UnterminatedJson` is the check after the
      scan; `AlignerFailed` stands for the aligner request or its response failing;
      `NoEligibleWord` is the `unwrap` of the last eligible word when there is none. */
  datatype SpecError =
    | DepthUnderflow(index: nat)
    | BadJson(offset: nat)
    | UnterminatedJson
    | AlignerFailed
    | NoEligibleWord

  // ---------------------------------------------------------------------------------------
  // Brace depth, as the source counts it

  /** The change in brace depth a character makes. */
  function DepthDelta(c: char): int {
    if c == '{' then 1 else if c == '}' then -1 else 0
  }

  /** The brace depth after reading `s`, counted as an unbounded integer. */
  function Depth(s: string): int {
    if s == [] then 0 else Depth(s[..|s| - 1]) + DepthDelta(s[|s| - 1])
  }

  /** No prefix of `s` closes more braces than it opens: the depth counter never goes below 0. */
  ghost predicate NoUnderflow(s: string) {
    forall k :: 0 <= k <= |s| ==> Depth(s[..k]) >= 0
  }

  lemma NoUnderflowSnoc(s: string, c: char)
    ensures NoUnderflow(s + [c]) <==> NoUnderflow(s) && Depth(s + [c]) >= 0
  {
    var t := s + [c];
    assert t[..|t|] == t;
    assert forall k :: 0 <= k <= |s| ==> t[..k] == s[..k];
  }

  predicate IsBrace(c: char) {
    c == '{' || c == '}'
  }

  /** The characters of `s` that are read at brace depth 0 and are not braces themselves. */
  function TopLevel(s: string): string {
    if s == [] then []
    else
      var p, c := s[..|s| - 1], s[|s| - 1];
      TopLevel(p) + (if !IsBrace(c) && Depth(p) == 0 then [c] else [])
  }

  // ---------------------------------------------------------------------------------------
  // Whitespace collapsing, as an independent reference

  /** `b` repeats the space or newline `a` just before it. */
  predicate Doubled(a: char, b: char) {
    (b == ' ' || b == '\n') && a == b
  }

  /** `t` without every space that directly follows a space and every newline that directly
      follows a newline. */
  function Collapse(t: string): string {
    if t == [] then []
    else
      Collapse(t[..|t| - 1]) +
      (if |t| >= 2 && Doubled(t[|t| - 2], t[|t| - 1]) then [] else [t[|t| - 1]])
  }

  /** The last character of `s`, or `default` when `s` is empty (`last().unwrap_or(..)`). */
  function LastOr(s: string, default: char): char {
    if s == [] then default else s[|s| - 1]
  }

  /** Collapsing never changes the last character. */
  lemma {:induction false} CollapseLast(t: string)
    ensures LastOr(Collapse(t), 'a') == LastOr(t, 'a')
  {
    if |t| >= 2 {
      CollapseLast(t[..|t| - 1]);
    }
  }

  lemma CollapseSnoc(t: string, c: char)
    ensures Collapse(t + [c]) == Collapse(t) + (if t != [] && Doubled(t[|t| - 1], c) then [] else [c])
  {
    assert (t + [c])[..|t|] == t;
  }

  /** `a` is `b` with some characters deleted, in order. */
  predicate Subseq(a: string, b: string)
    decreases |b|
  {
    if a == [] then true
    else if b == [] then false
    else Subseq(a, b[..|b| - 1]) || (a[|a| - 1] == b[|b| - 1] && Subseq(a[..|a| - 1], b[..|b| - 1]))
  }

  /** Every character of a subsequence occurs in the sequence. */
  lemma {:induction false} SubseqMembers(a: string, b: string)
    requires Subseq(a, b)
    ensures forall x :: x in a ==> x in b
    decreases |b|
  {
    if a != [] {
      if Subseq(a, b[..|b| - 1]) {
        SubseqMembers(a, b[..|b| - 1]);
      } else {
        SubseqMembers(a[..|a| - 1], b[..|b| - 1]);
        assert a == a[..|a| - 1] + [a[|a| - 1]];
        assert b == b[..|b| - 1] + [b[|b| - 1]];
      }
    }
  }

  /** Collapsing only deletes characters. */
  lemma {:induction false} CollapseSubseq(t: string)
    ensures Subseq(Collapse(t), t)
  {
    if t != [] {
      var p := t[..|t| - 1];
      CollapseSubseq(p);
      if |t| >= 2 && Doubled(t[|t| - 2], t[|t| - 1]) {
        assert Collapse(t) == Collapse(p);
        assert Subseq(Collapse(t), t[..|t| - 1]);
      } else {
        var a := Collapse(t);
        assert a == Collapse(p) + [t[|t| - 1]];
        assert a[..|a| - 1] == Collapse(p);
        assert a[|a| - 1] == t[|t| - 1];
      }
    }
  }

  /** No two neighbours of `s` form a doubled space or newline. */
  ghost predicate NoDoubles(s: string) {
    forall i :: 0 <= i < |s| - 1 ==> !Doubled(s[i], s[i + 1])
  }

  /** A collapsed string has no doubled space or newline. */
  lemma {:induction false} CollapseNoDoubles(t: string)
    ensures NoDoubles(Collapse(t))
  {
    if t != [] {
      var p := t[..|t| - 1];
      CollapseNoDoubles(p);
      CollapseLast(p);
    }
  }

  /** A string that has no doubled space or newline is already collapsed. */
  lemma {:induction false} CollapseKeeps(t: string)
    requires NoDoubles(t)
    ensures Collapse(t) == t
  {
    if t != [] {
      var p, c := t[..|t| - 1], t[|t| - 1];
      assert NoDoubles(p) by {
        forall i | 0 <= i < |p| - 1
          ensures !Doubled(p[i], p[i + 1])
        {
          assert p[i] == t[i] && p[i + 1] == t[i + 1];
        }
      }
      CollapseKeeps(p);
      if |t| >= 2 {
        assert !Doubled(t[|t| - 2], c);
      }
      assert Collapse(t) == Collapse(p) + [c];
      assert p + [c] == t;
    }
  }

  /** In a string without braces the depth stays 0 and every character is at top level. */
  lemma {:induction false} BraceFree(t: string)
    requires forall i :: 0 <= i < |t| ==> !IsBrace(t[i])
    ensures Depth(t) == 0 && NoUnderflow(t) && TopLevel(t) == t
  {
    if t != [] {
      var p := t[..|t| - 1];
      BraceFree(p);
      NoUnderflowSnoc(p, t[|t| - 1]);
      assert p + [t[|t| - 1]] == t;
    }
  }

  // ---------------------------------------------------------------------------------------
  // Spec::cleaned_transcript

  /** The loop state of `cleaned_transcript`: the depth counter and the output so far. */
  datatype CleanState = CleanState(depth: nat, result: string)

  /** One iteration of `cleaned_transcript` on character `c` at transcript index `index`. */
  function CleanStep(st: CleanState, c: char, index: nat): Result<CleanState, SpecError> {
    if c == '{' then Success(st.(depth := st.depth + 1))
    else if c == '}' then
      (if st.depth == 0 then Failure(DepthUnderflow(index)) else Success(st.(depth := st.depth - 1)))
    else if c == ' ' && LastOr(st.result, 'a') == ' ' then Success(st)
    else if c == '\n' && LastOr(st.result, 'a') == '\n' then Success(st)
    else if st.depth == 0 then Success(st.(result := st.result + [c]))
    else Success(st)
  }

  /** The state of `cleaned_transcript` after reading `s`. */
  function CleanPrefix(s: string): Result<CleanState, SpecError> {
    if s == [] then Success(CleanState(0, []))
    else
      match CleanPrefix(s[..|s| - 1])
      case Failure(e) => Failure(e)
      case Success(st) => CleanStep(st, s[|s| - 1], |s| - 1)
  }

  /** The spoken-word-only transcript. */
  function Clean(s: string): Result<string, SpecError> {
    match CleanPrefix(s)
    case Failure(e) => Failure(e)
    case Success(st) => Success(st.result)
  }

  /** One iteration of the cleaning loop, from a state in line with the reference on `p`,
      stays in line with it on `p + [c]`. */
  lemma CleanStepRef(p: string, c: char, st: CleanState, index: nat)
    requires st.depth == Depth(p) && st.result == Collapse(TopLevel(p))
    ensures CleanStep(st, c, index).Success? <==> Depth(p + [c]) >= 0
    ensures CleanStep(st, c, index).Success? ==>
      CleanStep(st, c, index).value.depth == Depth(p + [c]) &&
      CleanStep(st, c, index).value.result == Collapse(TopLevel(p + [c]))
    ensures CleanStep(st, c, index).Failure? ==> CleanStep(st, c, index).error == DepthUnderflow(index)
  {
    var s := p + [c];
    var t := TopLevel(p);
    assert s[..|s| - 1] == p;
    assert Depth(s) == Depth(p) + DepthDelta(c);
    if IsBrace(c) || Depth(p) != 0 {
      assert TopLevel(s) == t;
    } else {
      assert TopLevel(s) == t + [c];
      CollapseLast(t);
      CollapseSnoc(t, c);
    }
  }

  /** One step of the cleaning loop keeps it in line with its reference. */
  lemma CleanStepSpec(p: string, c: char)
    requires CleanPrefix(p).Success?
    requires CleanPrefix(p).value.depth == Depth(p)
    requires CleanPrefix(p).value.result == Collapse(TopLevel(p))
    ensures CleanPrefix(p + [c]).Success? <==> Depth(p + [c]) >= 0
    ensures CleanPrefix(p + [c]).Success? ==>
      CleanPrefix(p + [c]).value.depth == Depth(p + [c]) &&
      CleanPrefix(p + [c]).value.result == Collapse(TopLevel(p + [c]))
    ensures CleanPrefix(p + [c]).Failure? ==> CleanPrefix(p + [c]).error == DepthUnderflow(|p|)
  {
    var s := p + [c];
    assert s[..|s| - 1] == p;
    assert CleanPrefix(s) == CleanStep(CleanPrefix(p).value, c, |p|);
    CleanStepRef(p, c, CleanPrefix(p).value, |p|);
  }

  /** The cleaning loop against its reference: it fails exactly when the depth counter would
      go below 0, at the first such character; otherwise its depth is the brace depth and its
      output is the top-level characters with doubled spaces and newlines collapsed. */
  lemma {:induction false} CleanPrefixSpec(s: string)
    ensures CleanPrefix(s).Success? <==> NoUnderflow(s)
    ensures CleanPrefix(s).Success? ==>
      CleanPrefix(s).value.depth == Depth(s) && CleanPrefix(s).value.result == Collapse(TopLevel(s))
    ensures CleanPrefix(s).Failure? ==>
      CleanPrefix(s).error.DepthUnderflow? &&
      CleanPrefix(s).error.index < |s| &&
      NoUnderflow(s[..CleanPrefix(s).error.index]) &&
      Depth(s[..CleanPrefix(s).error.index + 1]) < 0
  {
    if s == [] {
      assert forall k :: 0 <= k <= 0 ==> s[..k] == [];
    } else {
      var p, c := s[..|s| - 1], s[|s| - 1];
      assert s == p + [c];
      CleanPrefixSpec(p);
      NoUnderflowSnoc(p, c);
      if CleanPrefix(p).Success? {
        CleanStepSpec(p, c);
        assert s[..|p|] == p;
        assert s[..|p| + 1] == s;
      } else {
        var i := CleanPrefix(p).error.index;
        assert s[..i] == p[..i] && s[..i + 1] == p[..i + 1];
      }
    }
  }

  /** `cleaned_transcript` fails exactly on a transcript that closes a brace it never opened;
      otherwise it returns the transcript's top-level characters with doubled spaces and
      newlines collapsed. */
  lemma CleanReference(s: string)
    ensures Clean(s).Success? <==> NoUnderflow(s)
    ensures Clean(s).Success? ==> Clean(s).value == Collapse(TopLevel(s))
  {
    CleanPrefixSpec(s);
  }

  /** The cleaned transcript has no braces and no doubled space or newline. */
  lemma CleanWellFormed(s: string)
    requires Clean(s).Success?
    ensures forall i :: 0 <= i < |Clean(s).value| ==> !IsBrace(Clean(s).value[i])
    ensures NoDoubles(Clean(s).value)
  {
    CleanPrefixSpec(s);
    CollapseNoDoubles(TopLevel(s));
    CollapseSubseq(TopLevel(s));
    SubseqMembers(Collapse(TopLevel(s)), TopLevel(s));
    TopLevelNoBraces(s);
  }

  lemma {:induction false} TopLevelNoBraces(s: string)
    ensures forall x :: x in TopLevel(s) ==> !IsBrace(x)
  {
    if s != [] {
      TopLevelNoBraces(s[..|s| - 1]);
    }
  }

  /** The cleaned transcript keeps, in order, only characters the transcript has at depth 0. */
  lemma CleanIsTopLevelSubsequence(s: string)
    requires Clean(s).Success?
    ensures Subseq(Clean(s).value, TopLevel(s))
  {
    CleanPrefixSpec(s);
    CollapseSubseq(TopLevel(s));
  }

  /** Cleaning is idempotent: the cleaned transcript cleans to itself. */
  lemma CleanIdempotent(s: string)
    requires Clean(s).Success?
    ensures Clean(Clean(s).value) == Clean(s)
  {
    var r := Clean(s).value;
    CleanWellFormed(s);
    BraceFree(r);
    CleanPrefixSpec(r);
    CollapseKeeps(r);
  }

  /** `Spec::cleaned_transcript`. */
  method CleanedTranscript(transcript: string) returns (r: Result<string, SpecError>)
    ensures r == Clean(transcript)
  {
    var result: string := [];
    var depth: nat := 0;
    for i := 0 to |transcript|
      invariant CleanPrefix(transcript[..i]) == Success(CleanState(depth, result))
    {
      assert transcript[..i + 1][..i] == transcript[..i];
      var c := transcript[i];
      if c == '{' {
        depth := depth + 1;
      } else if c == '}' {
        if depth == 0 {
          CleanFailureSticks(transcript, i + 1);
          return Failure(DepthUnderflow(i));
        }
        depth := depth - 1;
      } else if c == ' ' && LastOr(result, 'a') == ' ' {
      } else if c == '\n' && LastOr(result, 'a') == '\n' {
      } else if depth == 0 {
        result := result + [c];
      }
    }
    assert transcript[..|transcript|] == transcript;
    return Success(result);
  }

  /** Cleaning one more character of `s` is one more step of the loop. */
  lemma CleanPrefixNext(s: string, i: nat)
    requires i < |s| && CleanPrefix(s[..i]).Success?
    ensures CleanPrefix(s[..i + 1]) == CleanStep(CleanPrefix(s[..i]).value, s[i], i)
  {
    assert s[..i + 1][..i] == s[..i];
  }

  /** A failure while cleaning a prefix is the failure of the whole transcript. */
  lemma {:induction false} CleanFailureSticks(s: string, n: nat)
    requires n <= |s| && CleanPrefix(s[..n]).Failure?
    ensures CleanPrefix(s) == CleanPrefix(s[..n])
    decreases |s| - n
  {
    if n == |s| {
      assert s[..n] == s;
    } else {
      assert s[..n + 1][..n] == s[..n];
      CleanFailureSticks(s, n + 1);
    }
  }

  // ---------------------------------------------------------------------------------------
  // The marker scan in `Spec::into`

  /** What the JSON decoder yields for a marker's text: its uuid and its event type. */
  datatype Decoded = Decoded(uuid: string, info: Timeline.EventType)

  /** A marker as the scan records it (`IntermediateEvent`): where it sits in the cleaned
      transcript, and what its text decoded to. */
  datatype Marker = Marker(offset: nat, uuid: string, info: Timeline.EventType)

  /** The loop state of the scan: the cleaned-text offset, the pending marker text, the
      depth counter and the markers emitted so far. */
  datatype ScanState = ScanState(offset: nat, acc: string, depth: nat, output: seq<Marker>)

  /** `s.chars().nth(i).unwrap_or(default)`. */
  function CharAtOr(s: string, i: nat, default: char): char {
    if i < |s| then s[i] else default
  }

  /** One iteration of the scan on character `c` at transcript index `index`. `cleaned` is the
      cleaned transcript and `decode` the JSON decoder of a marker's text. */
  function ScanStep(st: ScanState, c: char, index: nat, cleaned: string, decode: string -> Option<Decoded>)
    : Result<ScanState, SpecError>
  {
    var depth1 := if c == '{' then st.depth + 1 else st.depth;
    var acc1 := if depth1 > 0 then st.acc + [c] else st.acc;
    if c == '}' && depth1 == 0 then Failure(DepthUnderflow(index))
    else
      var depth2 := if c == '}' then depth1 - 1 else depth1;
      var flush := depth2 == 0 && |acc1| > 0;
      if flush && decode(acc1).None? then Failure(BadJson(st.offset))
      else
        var output2 :=
          if flush then st.output + [Marker(st.offset, decode(acc1).value.uuid, decode(acc1).value.info)]
          else st.output;
        var acc2 := if flush then [] else acc1;
        var offset2 := if c == CharAtOr(cleaned, st.offset + 1, ' ') then st.offset + 1 else st.offset;
        Success(ScanState(offset2, acc2, depth2, output2))
  }

  /** The state of the scan after reading `s`. */
  function ScanPrefix(s: string, cleaned: string, decode: string -> Option<Decoded>): Result<ScanState, SpecError> {
    if s == [] then Success(ScanState(0, [], 0, []))
    else
      match ScanPrefix(s[..|s| - 1], cleaned, decode)
      case Failure(e) => Failure(e)
      case Success(st) => ScanStep(st, s[|s| - 1], |s| - 1, cleaned, decode)
  }

  /** The markers of `transcript`, or the error that stops the scan. */
  function Scan(transcript: string, cleaned: string, decode: string -> Option<Decoded>): Result<seq<Marker>, SpecError> {
    match ScanPrefix(transcript, cleaned, decode)
    case Failure(e) => Failure(e)
    case Success(st) => if st.depth != 0 || |st.acc| != 0 then Failure(UnterminatedJson) else Success(st.output)
  }

  /** The number of top-level brace groups `s` closes: the '}' characters that bring the
      depth back to 0. */
  function Closings(s: string): nat {
    if s == [] then 0
    else Closings(s[..|s| - 1]) + (if s[|s| - 1] == '}' && Depth(s) == 0 then 1 else 0)
  }

  /** The scan's depth and pending text: the depth counter is the brace depth, and the
      pending text is empty exactly at depth 0; otherwise it is the part of the input read
      since the '{' that left depth 0. */
  ghost predicate PendingInvariant(s: string, st: ScanState) {
    NoUnderflow(s) &&
    st.depth == Depth(s) &&
    (st.acc == [] <==> st.depth == 0) &&
    (st.acc != [] ==> OpenGroup(s, st.acc))
  }

  /** `acc` is the end of `s` from a '{' read at depth 0, and the depth has stayed above 0
      since then. */
  ghost predicate OpenGroup(s: string, acc: string) {
    0 < |acc| <= |s| && acc == s[|s| - |acc|..] &&
    acc[0] == '{' && Depth(s[..|s| - |acc|]) == 0 &&
    forall k :: |s| - |acc| < k <= |s| ==> Depth(s[..k]) > 0
  }

  /** The scan's output: one marker per closed top-level group; the offset has grown by at
      most one per character and the emitted offsets never decrease. */
  ghost predicate OutputInvariant(s: string, st: ScanState) {
    |st.output| == Closings(s) &&
    st.offset <= |s| &&
    OffsetsUpTo(st.output, st.offset)
  }

  /** The offsets of `markers` never decrease and none is past `bound`. */
  ghost predicate OffsetsUpTo(markers: seq<Marker>, bound: nat) {
    (forall j :: 0 <= j < |markers| ==> markers[j].offset <= bound) &&
    (forall j, k :: 0 <= j < k < |markers| ==> markers[j].offset <= markers[k].offset)
  }

  /** A marker at the bound may be appended, and the bound may then grow. */
  lemma OffsetsSnoc(markers: seq<Marker>, m: Marker, bound: nat, bound': nat)
    requires OffsetsUpTo(markers, bound) && m.offset == bound <= bound'
    ensures OffsetsUpTo(markers + [m], bound')
  {
  }

  ghost predicate ScanInvariant(s: string, st: ScanState) {
    PendingInvariant(s, st) && OutputInvariant(s, st)
  }

  lemma DepthSnoc(p: string, c: char)
    ensures Depth(p + [c]) == Depth(p) + DepthDelta(c)
    ensures forall k :: 0 <= k <= |p| ==> (p + [c])[..k] == p[..k]
    ensures (p + [c])[..|p| + 1] == p + [c]
  {
    assert (p + [c])[..|p|] == p;
  }

  /** An open group stays open while the depth stays above 0. */
  lemma ExtendGroup(p: string, c: char, acc: string)
    requires OpenGroup(p, acc) && Depth(p + [c]) > 0
    ensures OpenGroup(p + [c], acc + [c])
  {
    DepthSnoc(p, c);
    var s := p + [c];
    assert s[..|s| - |acc + [c]|] == p[..|p| - |acc|];
  }

  /** A '{' at depth 0 opens a group. */
  lemma OpenNewGroup(p: string)
    requires Depth(p) == 0
    ensures OpenGroup(p + ['{'], ['{'])
  {
    var s := p + ['{'];
    DepthSnoc(p, '{');
    assert s[|s| - 1..] == ['{'];
    assert s[..|s| - 1] == p;
    assert s[..|s|] == s && Depth(s) == 1;
  }

  lemma PendingStep(p: string, c: char, st: ScanState, st': ScanState, cleaned: string, decode: string -> Option<Decoded>)
    requires PendingInvariant(p, st)
    requires ScanStep(st, c, |p|, cleaned, decode) == Success(st')
    ensures PendingInvariant(p + [c], st')
  {
    DepthSnoc(p, c);
    NoUnderflowSnoc(p, c);
    if c == '{' {
      assert st'.acc == st.acc + [c];
      if st.acc == [] {
        OpenNewGroup(p);
      } else {
        ExtendGroup(p, c, st.acc);
      }
    } else if c == '}' {
      if st.depth > 1 {
        assert st'.acc == st.acc + [c];
        ExtendGroup(p, c, st.acc);
      }
    } else if st.depth > 0 {
      assert st'.acc == st.acc + [c];
      ExtendGroup(p, c, st.acc);
    }
  }

  lemma OutputStep(p: string, c: char, st: ScanState, st': ScanState, cleaned: string, decode: string -> Option<Decoded>)
    requires PendingInvariant(p, st) && OutputInvariant(p, st)
    requires ScanStep(st, c, |p|, cleaned, decode) == Success(st')
    ensures OutputInvariant(p + [c], st')
    ensures st'.offset == st.offset || st'.offset == st.offset + 1
    ensures if c == '}' && Depth(p + [c]) == 0 then
        decode(st.acc + [c]).Some? &&
        st'.output == st.output + [Marker(st.offset, decode(st.acc + [c]).value.uuid, decode(st.acc + [c]).value.info)]
      else
        st'.output == st.output
  {
    DepthSnoc(p, c);
    var s := p + [c];
    assert s[..|s| - 1] == p;
    assert Closings(s) == Closings(p) + (if c == '}' && Depth(s) == 0 then 1 else 0);
    if c == '}' && st.depth == 1 {
      var m := Marker(st.offset, decode(st.acc + [c]).value.uuid, decode(st.acc + [c]).value.info);
      assert st'.output == st.output + [m];
      OffsetsSnoc(st.output, m, st.offset, st'.offset);
    } else {
      assert st'.output == st.output;
    }
  }

  /** One step of the scan keeps its invariant. When it emits a marker, the character is the
      '}' that brings the depth back to 0, and the marker is the decoding of exactly the
      pending text plus that '}', recorded at the offset reached before the character. */
  lemma ScanStepSpec(p: string, c: char, cleaned: string, decode: string -> Option<Decoded>)
    requires ScanPrefix(p, cleaned, decode).Success?
    requires ScanInvariant(p, ScanPrefix(p, cleaned, decode).value)
    ensures ScanPrefix(p + [c], cleaned, decode).Success? ==>
      ScanInvariant(p + [c], ScanPrefix(p + [c], cleaned, decode).value)
    ensures Depth(p + [c]) < 0 ==> ScanPrefix(p + [c], cleaned, decode).Failure?
    ensures ScanPrefix(p + [c], cleaned, decode).Success? ==>
      var st, st' := ScanPrefix(p, cleaned, decode).value, ScanPrefix(p + [c], cleaned, decode).value;
      (st'.offset == st.offset || st'.offset == st.offset + 1) &&
      if c == '}' && Depth(p + [c]) == 0 then
        decode(st.acc + [c]).Some? &&
        st'.output == st.output + [Marker(st.offset, decode(st.acc + [c]).value.uuid, decode(st.acc + [c]).value.info)]
      else
        st'.output == st.output
  {
    var s := p + [c];
    assert s[..|s| - 1] == p;
    var st := ScanPrefix(p, cleaned, decode).value;
    assert ScanPrefix(s, cleaned, decode) == ScanStep(st, c, |p|, cleaned, decode);
    DepthSnoc(p, c);
    if ScanPrefix(s, cleaned, decode).Success? {
      var st' := ScanPrefix(s, cleaned, decode).value;
      PendingStep(p, c, st, st', cleaned, decode);
      OutputStep(p, c, st, st', cleaned, decode);
    }
  }

  /** When one step of the scan fails, and with which error: a '}' that takes the depth
      below 0 is an underflow at its own index; a '}' that closes a top-level group whose
      text does not decode is bad JSON at the offset reached before it; every other step
      succeeds. */
  lemma ScanStepOutcome(p: string, c: char, cleaned: string, decode: string -> Option<Decoded>)
    requires ScanPrefix(p, cleaned, decode).Success?
    requires ScanInvariant(p, ScanPrefix(p, cleaned, decode).value)
    ensures Depth(p + [c]) < 0 ==> ScanPrefix(p + [c], cleaned, decode) == Failure(DepthUnderflow(|p|))
    ensures var st := ScanPrefix(p, cleaned, decode).value;
      c == '}' && Depth(p + [c]) == 0 && decode(st.acc + [c]).None? ==>
        ScanPrefix(p + [c], cleaned, decode) == Failure(BadJson(st.offset))
    ensures var st := ScanPrefix(p, cleaned, decode).value;
      Depth(p + [c]) >= 0 && !(c == '}' && Depth(p + [c]) == 0 && decode(st.acc + [c]).None?) ==>
        ScanPrefix(p + [c], cleaned, decode).Success?
  {
    assert (p + [c])[..|p|] == p;
    DepthSnoc(p, c);
  }

  /** The scan's invariant holds after every prefix it reads without failing. */
  lemma {:induction false} ScanPrefixSpec(s: string, cleaned: string, decode: string -> Option<Decoded>)
    requires ScanPrefix(s, cleaned, decode).Success?
    ensures ScanInvariant(s, ScanPrefix(s, cleaned, decode).value)
  {
    if s == [] {
      assert forall k :: 0 <= k <= 0 ==> s[..k] == [];
    } else {
      var p := s[..|s| - 1];
      assert p + [s[|s| - 1]] == s;
      ScanPrefixSpec(p, cleaned, decode);
      ScanStepSpec(p, s[|s| - 1], cleaned, decode);
    }
  }

  /** `Spec::into`'s scan loop: each iteration is `ScanCharacter`, and the checks after the
      loop are those of `Scan`. */
  method ScanMarkers(transcript: string, cleaned: string, decode: string -> Option<Decoded>)
    returns (r: Result<seq<Marker>, SpecError>)
    ensures r == Scan(transcript, cleaned, decode)
  {
    var offset := 0;
    var acc: string := "";
    var depth: nat := 0;
    var output: seq<Marker> := [];
    for i := 0 to |transcript|
      invariant ScanPrefix(transcript[..i], cleaned, decode) == Success(ScanState(offset, acc, depth, output))
    {
      ScanPrefixNext(transcript, i, cleaned, decode);
      var next := ScanCharacter(ScanState(offset, acc, depth, output), transcript[i], i, cleaned, decode);
      if next.Failure? {
        ScanFailureSticks(transcript, i + 1, cleaned, decode);
        return Failure(next.error);
      }
      offset, acc, depth, output := next.value.offset, next.value.acc, next.value.depth, next.value.output;
    }
    assert transcript[..|transcript|] == transcript;
    if depth != 0 || |acc| != 0 {
      return Failure(UnterminatedJson);
    }
    return Success(output);
  }

  /** The body of the scan loop in `ScanMarkers`, statement by statement as the source
      writes it: the depth counter, the pending text, the flush of a closed group through the
      decoder and the cleaned-text offset. It is the imperative counterpart of `ScanStep`, the
      function the proofs reason about, and is proved equal to it. */
  method ScanCharacter(st: ScanState, c: char, index: nat, cleaned: string, decode: string -> Option<Decoded>)
    returns (r: Result<ScanState, SpecError>)
    ensures r == ScanStep(st, c, index, cleaned, decode)
  {
    var offset, acc, depth, output := st.offset, st.acc, st.depth, st.output;
    if c == '{' {
      depth := depth + 1;
    }
    if depth > 0 {
      acc := acc + [c];
    }
    if c == '}' {
      if depth == 0 {
        return Failure(DepthUnderflow(index));
      }
      depth := depth - 1;
    }
    if depth == 0 && |acc| > 0 {
      var decoded := decode(acc);
      if decoded.None? {
        return Failure(BadJson(offset));
      }
      output := output + [Marker(offset, decoded.value.uuid, decoded.value.info)];
      acc := "";
    }
    if c == CharAtOr(cleaned, offset + 1, ' ') {
      offset := offset + 1;
    }
    return Success(ScanState(offset, acc, depth, output));
  }

  /** Outside a marker, a character other than a brace only moves the cleaned-text offset. */
  lemma ScanStepOutside(st: ScanState, c: char, index: nat, cleaned: string, decode: string -> Option<Decoded>)
    requires !IsBrace(c) && st.depth == 0 && st.acc == []
    ensures ScanStep(st, c, index, cleaned, decode) ==
      Success(st.(offset := if c == CharAtOr(cleaned, st.offset + 1, ' ') then st.offset + 1 else st.offset))
  {
  }

  /** Inside a marker, or at the '{' that opens one, a character other than '}' is added to
      the pending text and nothing is emitted. */
  lemma ScanStepInside(st: ScanState, c: char, index: nat, cleaned: string, decode: string -> Option<Decoded>)
    requires c != '}' && (st.depth > 0 || c == '{')
    ensures ScanStep(st, c, index, cleaned, decode) ==
      Success(ScanState(
        if c == CharAtOr(cleaned, st.offset + 1, ' ') then st.offset + 1 else st.offset,
        st.acc + [c],
        if c == '{' then st.depth + 1 else st.depth,
        st.output))
  {
  }

  /** Scanning one more character of `s` is one more step of the scan. */
  lemma ScanPrefixNext(s: string, i: nat, cleaned: string, decode: string -> Option<Decoded>)
    requires i < |s| && ScanPrefix(s[..i], cleaned, decode).Success?
    ensures ScanPrefix(s[..i + 1], cleaned, decode) ==
      ScanStep(ScanPrefix(s[..i], cleaned, decode).value, s[i], i, cleaned, decode)
  {
    assert s[..i + 1][..i] == s[..i];
  }

  /** A failure while scanning a prefix is the failure of the whole scan. */
  lemma {:induction false} ScanFailureSticks(s: string, n: nat, cleaned: string, decode: string -> Option<Decoded>)
    requires n <= |s| && ScanPrefix(s[..n], cleaned, decode).Failure?
    ensures ScanPrefix(s, cleaned, decode) == ScanPrefix(s[..n], cleaned, decode)
    decreases |s| - n
  {
    if n == |s| {
      assert s[..n] == s;
    } else {
      assert s[..n + 1][..n] == s[..n];
      ScanFailureSticks(s, n + 1, cleaned, decode);
    }
  }

  /** The scan fails at the end ("Unterminated JSON") exactly when braces are left open, and
      otherwise yields one marker per top-level group, with non-decreasing offsets. */
  lemma ScanTermination(s: string, cleaned: string, decode: string -> Option<Decoded>)
    requires ScanPrefix(s, cleaned, decode).Success?
    ensures Scan(s, cleaned, decode) == Failure(UnterminatedJson) <==> Depth(s) != 0
    ensures Scan(s, cleaned, decode).Success? <==> Depth(s) == 0
    ensures Scan(s, cleaned, decode).Success? ==>
      |Scan(s, cleaned, decode).value| == Closings(s) &&
      forall j, k :: 0 <= j < k < |Scan(s, cleaned, decode).value| ==>
        Scan(s, cleaned, decode).value[j].offset <= Scan(s, cleaned, decode).value[k].offset
  {
    ScanPrefixSpec(s, cleaned, decode);
  }

  /** A transcript that closes a brace it never opened is never scanned successfully. */
  lemma {:induction false} ScanRejectsUnderflow(s: string, cleaned: string, decode: string -> Option<Decoded>)
    requires !NoUnderflow(s)
    ensures ScanPrefix(s, cleaned, decode).Failure?
    ensures Scan(s, cleaned, decode) == Failure(ScanPrefix(s, cleaned, decode).error)
  {
    if ScanPrefix(s, cleaned, decode).Success? {
      ScanPrefixSpec(s, cleaned, decode);
      assert false;
    }
  }

  /** A marker is emitted at the '}' that closes a top-level group, and it is the decoding of
      that whole group: the text from the '{' read at depth 0 up to this '}', during which the
      depth stayed above 0. */
  lemma ScanFlushesGroup(p: string, c: char, cleaned: string, decode: string -> Option<Decoded>)
    requires ScanPrefix(p + [c], cleaned, decode).Success?
    requires c == '}' && Depth(p + [c]) == 0
    ensures ScanPrefix(p, cleaned, decode).Success?
    ensures
      var st := ScanPrefix(p, cleaned, decode).value;
      var start := |p| - |st.acc|;
      0 <= start < |p| && p[start] == '{' && Depth(p[..start]) == 0 &&
      (forall k :: start < k <= |p| ==> Depth(p[..k]) > 0) &&
      var group := (p + [c])[start..];
      decode(group).Some? &&
      ScanPrefix(p + [c], cleaned, decode).value.output ==
        st.output + [Marker(st.offset, decode(group).value.uuid, decode(group).value.info)]
  {
    var s := p + [c];
    assert s[..|s| - 1] == p;
    assert ScanPrefix(p, cleaned, decode).Success?;
    var st, st' := ScanPrefix(p, cleaned, decode).value, ScanPrefix(s, cleaned, decode).value;
    assert ScanStep(st, c, |p|, cleaned, decode) == Success(st');
    ScanPrefixSpec(p, cleaned, decode);
    DepthSnoc(p, c);
    OutputStep(p, c, st, st', cleaned, decode);
    assert st.depth == 1;
    assert OpenGroup(p, st.acc);
    assert st.acc + [c] == s[|p| - |st.acc|..];
  }

  // ---------------------------------------------------------------------------------------
  // Reassociating markers with the aligner's timings

  /** A word the builder may use: recognised, with both times and both offsets present. */
  predicate Eligible(w: GentleWord) {
    w.outcome == "success" && w.start.Some? && w.end.Some? && w.endOffset.Some? && w.startOffset.Some?
  }

  /** The eligible word's span covers `offset`, with two characters of slack after its end. */
  predicate Covers(w: GentleWord, offset: nat)
    requires Eligible(w)
  {
    w.startOffset.value < offset && w.endOffset.value + 2 > offset
  }

  /** The index of the first eligible word, in the aligner's order, whose span covers
      `offset` (`words.clone().filter(..).next()` over the eligible words). */
  function FirstMatch(words: seq<GentleWord>, offset: nat): (r: Option<nat>)
    ensures r.Some? ==>
      r.value < |words| && Eligible(words[r.value]) && Covers(words[r.value], offset) &&
      forall j :: 0 <= j < r.value ==> !(Eligible(words[j]) && Covers(words[j], offset))
    ensures r.None? ==> forall j :: 0 <= j < |words| ==> !(Eligible(words[j]) && Covers(words[j], offset))
  {
    if words == [] then None
    else if Eligible(words[0]) && Covers(words[0], offset) then Some(0)
    else
      match FirstMatch(words[1..], offset)
      case None => None
      case Some(i) => Some(i + 1)
  }

  /** The event a marker becomes: the start time of its first matching word, or nothing when
      no eligible word covers it (the source warns and skips it). */
  function Resolve(m: Marker, words: seq<GentleWord>): Option<Timeline.Event> {
    match FirstMatch(words, m.offset)
    case None => None
    case Some(i) => Some(Timeline.Event(words[i].start.value, m.uuid, m.info))
  }

  /** The events of `markers`, in marker order, unmatched markers dropped. */
  function Matched(markers: seq<Marker>, words: seq<GentleWord>): seq<Timeline.Event> {
    if markers == [] then []
    else
      Matched(markers[..|markers| - 1], words) +
      (match Resolve(markers[|markers| - 1], words) case None => [] case Some(e) => [e])
  }

  /** Matching distributes over concatenation: each marker is resolved on its own and the
      results keep the markers' order (no sorting). */
  lemma {:induction false} MatchedAppend(a: seq<Marker>, b: seq<Marker>, words: seq<GentleWord>)
    ensures Matched(a + b, words) == Matched(a, words) + Matched(b, words)
    decreases |b|
  {
    if b == [] {
      assert a + b == a;
    } else {
      var b' := b[..|b| - 1];
      assert (a + b)[..|a + b| - 1] == a + b';
      MatchedAppend(a, b', words);
    }
  }

  /** Dropping never adds: there are at most as many events as markers, and exactly as many
      when every marker finds a word. */
  lemma {:induction false} MatchedLength(markers: seq<Marker>, words: seq<GentleWord>)
    ensures |Matched(markers, words)| <= |markers|
    ensures (forall m :: m in markers ==> Resolve(m, words).Some?) ==> |Matched(markers, words)| == |markers|
  {
    if markers != [] {
      var p := markers[..|markers| - 1];
      assert forall m :: m in p ==> m in markers;
      MatchedLength(p, words);
    }
  }

  /** Every event comes from a marker: same uuid and info, timestamped with the start of the
      first eligible word (in the aligner's order) that covers the marker's offset. */
  lemma {:induction false} MatchedEventsFromMarkers(markers: seq<Marker>, words: seq<GentleWord>)
    ensures forall e :: e in Matched(markers, words) ==>
      exists m, i :: m in markers && FirstMatch(words, m.offset) == Some(i) &&
        e == Timeline.Event(words[i].start.value, m.uuid, m.info)
  {
    if markers != [] {
      var p, m := markers[..|markers| - 1], markers[|markers| - 1];
      assert markers == p + [m];
      MatchedEventsFromMarkers(p, words);
    }
  }

  /** The matching loop of `Spec::into`. */
  method Reassociate(markers: seq<Marker>, words: seq<GentleWord>) returns (output: seq<Timeline.Event>)
    ensures output == Matched(markers, words)
  {
    output := [];
    for i := 0 to |markers|
      invariant output == Matched(markers[..i], words)
    {
      assert markers[..i + 1][..i] == markers[..i];
      var thisEvent := markers[i];
      var corresponding := FirstMatch(words, thisEvent.offset);
      if corresponding.None? {
        // The source prints a warning and moves on.
        continue;
      }
      var word := words[corresponding.value];
      output := output + [Timeline.Event(word.start.value, thisEvent.uuid, thisEvent.info)];
    }
    assert markers[..|markers|] == markers;
  }

  /** The index of the last eligible word (`words.clone().last()`). */
  function LastEligible(words: seq<GentleWord>): (r: Option<nat>)
    ensures r.Some? ==>
      r.value < |words| && Eligible(words[r.value]) &&
      forall j :: r.value < j < |words| ==> !Eligible(words[j])
    ensures r.None? ==> forall j :: 0 <= j < |words| ==> !Eligible(words[j])
  {
    if words == [] then None
    else if Eligible(words[|words| - 1]) then Some(|words| - 1)
    else LastEligible(words[..|words| - 1])
  }

  /** The timeline's length: two seconds after the end of the last eligible word; it fails
      when no word is eligible. */
  function TimelineLength(words: seq<GentleWord>): (r: Result<real, SpecError>)
    ensures r.Failure? <==> forall j :: 0 <= j < |words| ==> !Eligible(words[j])
    ensures r.Failure? ==> r.error == NoEligibleWord
    ensures r.Success? ==>
      exists i :: 0 <= i < |words| && Eligible(words[i]) && r.value == words[i].end.value + 2.0 &&
        forall j :: i < j < |words| ==> !Eligible(words[j])
  {
    match LastEligible(words)
    case None => Failure(NoEligibleWord)
    case Some(i) => Success(words[i].end.value + 2.0)
  }

  // ---------------------------------------------------------------------------------------
  // Spec::into

  /** `Spec::into` as a function of the transcript, the frame rate, the resolution and the
      two collaborators: `decode` (the JSON decoder of a marker's text) and `align` (the
      aligner, given the cleaned transcript; None when the request or its response fails). */
  function BuildTimeline(transcript: string, rate: nat, resolution: (nat, nat),
                         decode: string -> Option<Decoded>, align: string -> Option<seq<GentleWord>>)
    : Result<Timeline.Timeline, SpecError>
  {
    match Clean(transcript)
    case Failure(e) => Failure(e)
    case Success(cleaned) =>
      match Scan(transcript, cleaned, decode)
      case Failure(e) => Failure(e)
      case Success(markers) =>
        match align(cleaned)
        case None => Failure(AlignerFailed)
        case Some(words) =>
          match TimelineLength(words)
          case Failure(e) => Failure(e)
          case Success(length) => Success(Timeline.Timeline(Matched(markers, words), rate, length, resolution))
  }

  /** What a built timeline promises: the transcript's braces balance; one marker was found
      per top-level group; the events are those markers matched in order, each carrying the
      start time of the first eligible word covering its marker; the length is two seconds
      past the last eligible word's end; the rate and resolution are passed through. */
  lemma BuildTimelineSuccess(transcript: string, rate: nat, resolution: (nat, nat),
                             decode: string -> Option<Decoded>, align: string -> Option<seq<GentleWord>>)
    requires BuildTimeline(transcript, rate, resolution, decode, align).Success?
    ensures NoUnderflow(transcript) && Depth(transcript) == 0
    ensures Clean(transcript).Success? && align(Clean(transcript).value).Some?
    ensures Scan(transcript, Clean(transcript).value, decode).Success?
    ensures
      var tl := BuildTimeline(transcript, rate, resolution, decode, align).value;
      var words := align(Clean(transcript).value).value;
      var markers := Scan(transcript, Clean(transcript).value, decode).value;
      tl.rate == rate && tl.resolution == resolution &&
      |markers| == Closings(transcript) &&
      tl.events == Matched(markers, words) && |tl.events| <= |markers| &&
      TimelineLength(words) == Success(tl.length) &&
      forall e :: e in tl.events ==>
        exists m, i :: m in markers && FirstMatch(words, m.offset) == Some(i) &&
          e == Timeline.Event(words[i].start.value, m.uuid, m.info)
  {
    CleanPrefixSpec(transcript);
    var cleaned := Clean(transcript).value;
    assert Scan(transcript, cleaned, decode).Success?;
    ScanTermination(transcript, cleaned, decode);
    var markers := Scan(transcript, cleaned, decode).value;
    var words := align(cleaned).value;
    MatchedLength(markers, words);
    MatchedEventsFromMarkers(markers, words);
  }

  /** A build that stops with "Unterminated JSON" had balanced-so-far braces left open. */
  lemma BuildTimelineUnterminated(transcript: string, rate: nat, resolution: (nat, nat),
                                  decode: string -> Option<Decoded>, align: string -> Option<seq<GentleWord>>)
    requires BuildTimeline(transcript, rate, resolution, decode, align) == Failure(UnterminatedJson)
    ensures NoUnderflow(transcript) && Depth(transcript) > 0
  {
    CleanPrefixSpec(transcript);
    var cleaned := Clean(transcript).value;
    if ScanPrefix(transcript, cleaned, decode).Success? {
      ScanTermination(transcript, cleaned, decode);
      ScanPrefixSpec(transcript, cleaned, decode);
    } else {
      ScanErrors(transcript, cleaned, decode);
    }
  }

  /** The scan itself only ever stops with an underflow or a decoding error. */
  lemma {:induction false} ScanErrors(s: string, cleaned: string, decode: string -> Option<Decoded>)
    requires ScanPrefix(s, cleaned, decode).Failure?
    ensures ScanPrefix(s, cleaned, decode).error.DepthUnderflow? || ScanPrefix(s, cleaned, decode).error.BadJson?
  {
    if s != [] && ScanPrefix(s[..|s| - 1], cleaned, decode).Failure? {
      ScanErrors(s[..|s| - 1], cleaned, decode);
    }
  }

  /** A transcript that closes a brace it never opened fails to build, with the depth
      underflow raised while cleaning it. */
  lemma BuildTimelineUnderflow(transcript: string, rate: nat, resolution: (nat, nat),
                               decode: string -> Option<Decoded>, align: string -> Option<seq<GentleWord>>)
    requires !NoUnderflow(transcript)
    ensures Clean(transcript).Failure? && Clean(transcript).error.DepthUnderflow?
    ensures BuildTimeline(transcript, rate, resolution, decode, align) == Failure(Clean(transcript).error)
  {
    CleanPrefixSpec(transcript);
  }

  /** `Spec::into`: clean the transcript, scan its markers, ask the aligner, reassociate the
      markers with the aligner's words, and compute the length. */
  method Into(transcript: string, rate: nat, resolution: (nat, nat),
              decode: string -> Option<Decoded>, align: string -> Option<seq<GentleWord>>)
    returns (r: Result<Timeline.Timeline, SpecError>)
    ensures r == BuildTimeline(transcript, rate, resolution, decode, align)
  {
    var cleaned := CleanedTranscript(transcript);
    if cleaned.Failure? {
      return Failure(cleaned.error);
    }
    var markers := ScanMarkers(transcript, cleaned.value, decode);
    if markers.Failure? {
      return Failure(markers.error);
    }
    var response := align(cleaned.value);
    if response.None? {
      return Failure(AlignerFailed);
    }
    var output := Reassociate(markers.value, response.value);
    var length := TimelineLength(response.value);
    if length.Failure? {
      return Failure(length.error);
    }
    return Success(Timeline.Timeline(output, rate, length.value, resolution));
  }
}
