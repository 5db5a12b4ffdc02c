/** The renderer's side of the pipeline (src/timeline.rs): the timed events, the per-frame
    overlay state with its asset cache, the sequential frame/cursor stage of rendering and
    the zero-padded frame file names. */
module Timeline {
  import opened Wrappers

  /** Placement rectangle of an image overlay: x, y, width, height in pixels. */
  datatype Rect = Rect(x: nat, y: nat, w: nat, h: nat)

  /** What an event does. The argument of `JsStart` is an arbitrary JSON value, kept here
      as its text: nothing in the core looks inside it. */
  datatype EventType =
    | JsStart(args: string)
    | ImgStart(slug: string, rect: Rect)
    | JsEnd
    | ImgEnd

  /** One timed instruction for the renderer. */
  datatype Event = Event(timestamp: real, uuid: string, info: EventType)

  /** The output of the timeline builder: events in the order they were resolved, the frame
      rate, the total length in seconds and the output resolution. */
  datatype Timeline = Timeline(events: seq<Event>, rate: nat, length: real, resolution: (nat, nat))

  /** The ways `Frame::apply` aborts: an asset slug missing from the resource map
      ("Bad reference to undefined resource"), an unreadable asset file ("Illegible
      resource"), or a script overlay (`todo!()`). */
  datatype FrameError = UndefinedResource(slug: string) | IllegibleResource(slug: string) | NotImplemented

  /** The value of a frame's overlay state: the active events, in the order they were
      applied, and the cache of loaded asset bytes keyed by slug. */
  datatype FrameState = FrameState(contents: seq<Event>, assets: map<string, seq<bv8>>)

  /** The state of a new frame. */
  const Initial := FrameState([], map[])

  /** The active events that survive an end event for `uuid` (what `retain` keeps). */
  function Without(s: seq<Event>, uuid: string): (r: seq<Event>)
    ensures |r| <= |s|
  {
    if s == [] then []
    else Without(s[..|s| - 1], uuid) + (if s[|s| - 1].uuid == uuid then [] else [s[|s| - 1]])
  }

  /** The survivors are exactly the entries whose uuid differs. */
  lemma {:induction false} WithoutMembers(s: seq<Event>, uuid: string)
    ensures forall e :: e in Without(s, uuid) <==> e in s && e.uuid != uuid
  {
    if s != [] {
      var p := s[..|s| - 1];
      WithoutMembers(p, uuid);
      assert s == p + [s[|s| - 1]];
    }
  }

  /** Removing an uuid commutes with concatenation: the survivors keep their relative order. */
  lemma {:induction false} WithoutAppend(s: seq<Event>, t: seq<Event>, uuid: string)
    ensures Without(s + t, uuid) == Without(s, uuid) + Without(t, uuid)
    decreases |t|
  {
    if t == [] {
      assert s + t == s;
    } else {
      var t' := t[..|t| - 1];
      assert (s + t)[..|s + t| - 1] == s + t';
      WithoutAppend(s, t', uuid);
    }
  }

  /** A list in which no entry carries `uuid` is left exactly as it is. */
  lemma {:induction false} WithoutAbsent(s: seq<Event>, uuid: string)
    requires forall e :: e in s ==> e.uuid != uuid
    ensures Without(s, uuid) == s
  {
    if s != [] {
      assert s[..|s| - 1] + [s[|s| - 1]] == s;
      WithoutAbsent(s[..|s| - 1], uuid);
    }
  }

  /** `Frame::apply` as a function on the frame's state. `used` maps slugs to asset paths and
      `read` stands for reading a file (None when it cannot be read). */
  function ApplyTo(st: FrameState, used: map<string, string>, read: string -> Option<seq<bv8>>, event: Event)
    : Result<FrameState, FrameError>
  {
    match event.info
    case JsStart(_) => Failure(NotImplemented)
    case ImgStart(slug, _) =>
      if slug in st.assets then Success(st.(contents := st.contents + [event]))
      else if slug !in used then Failure(UndefinedResource(slug))
      else (
        match read(used[slug])
        case None => Failure(IllegibleResource(slug))
        case Some(bytes) => Success(FrameState(st.contents + [event], st.assets[slug := bytes])))
    case _ => Success(st.(contents := Without(st.contents, event.uuid)))
  }

  /** What applying one event does: a script overlay is not implemented; an image succeeds
      exactly when its asset is cached or can be loaded, appends the event and caches the
      bytes read from the asset's path without touching other entries; an end event removes
      exactly the entries with its uuid and leaves the cache alone. */
  lemma ApplyToSpec(st: FrameState, used: map<string, string>, read: string -> Option<seq<bv8>>, event: Event)
    ensures event.info.JsStart? ==> ApplyTo(st, used, read, event) == Failure(NotImplemented)
    ensures event.info.ImgStart? ==>
      (ApplyTo(st, used, read, event).Success? <==>
       event.info.slug in st.assets || (event.info.slug in used && read(used[event.info.slug]).Some?))
    ensures event.info.ImgStart? && event.info.slug !in st.assets && event.info.slug !in used ==>
      ApplyTo(st, used, read, event) == Failure(UndefinedResource(event.info.slug))
    ensures event.info.ImgStart? && ApplyTo(st, used, read, event).Success? ==>
      var r := ApplyTo(st, used, read, event).value;
      r.contents == st.contents + [event] &&
      r.assets.Keys == st.assets.Keys + {event.info.slug} &&
      (forall k :: k in st.assets ==> r.assets[k] == st.assets[k])
    ensures event.info.ImgStart? && event.info.slug !in st.assets && ApplyTo(st, used, read, event).Success? ==>
      event.info.slug in used && read(used[event.info.slug]).Some? &&
      ApplyTo(st, used, read, event).value.assets[event.info.slug] == read(used[event.info.slug]).value
    ensures (event.info.ImgEnd? || event.info.JsEnd?) ==>
      ApplyTo(st, used, read, event).Success? &&
      ApplyTo(st, used, read, event).value.assets == st.assets &&
      (forall e :: e in ApplyTo(st, used, read, event).value.contents <==> e in st.contents && e.uuid != event.uuid)
  {
    WithoutMembers(st.contents, event.uuid);
  }

  /** An end event removes exactly the entries with its uuid; the others keep their order. */
  lemma EndRemovesUuid(st: FrameState, used: map<string, string>, read: string -> Option<seq<bv8>>,
                       before: seq<Event>, after: seq<Event>, event: Event)
    requires event.info.ImgEnd? || event.info.JsEnd?
    requires st.contents == before + after
    ensures ApplyTo(st, used, read, event) ==
      Success(FrameState(Without(before, event.uuid) + Without(after, event.uuid), st.assets))
  {
    WithoutAppend(before, after, event.uuid);
  }

  /** Showing an image and then ending it by the same uuid gives back the active list it
      started from, provided no active entry already carried that uuid. */
  lemma StartThenEnd(st: FrameState, used: map<string, string>, read: string -> Option<seq<bv8>>,
                     start: Event, end: Event)
    requires start.info.ImgStart? && ApplyTo(st, used, read, start).Success?
    requires end.info.ImgEnd? || end.info.JsEnd?
    requires end.uuid == start.uuid
    requires forall e :: e in st.contents ==> e.uuid != start.uuid
    ensures ApplyTo(ApplyTo(st, used, read, start).value, used, read, end).Success?
    ensures ApplyTo(ApplyTo(st, used, read, start).value, used, read, end).value.contents == st.contents
  {
    var mid := ApplyTo(st, used, read, start).value;
    WithoutAppend(st.contents, [start], start.uuid);
    WithoutAbsent(st.contents, start.uuid);
    assert Without([start], start.uuid) == [];
  }

  /** Applying the first `n` events one after another, stopping at the first failure. */
  function ApplyAll(st: FrameState, used: map<string, string>, read: string -> Option<seq<bv8>>,
                    events: seq<Event>, n: nat): Result<FrameState, FrameError>
    requires n <= |events|
  {
    if n == 0 then Success(st)
    else
      match ApplyAll(st, used, read, events, n - 1)
      case Failure(e) => Failure(e)
      case Success(mid) => ApplyTo(mid, used, read, events[n - 1])
  }

  /** Once the first `n` events fail, every longer run fails with the same error. */
  lemma {:induction false} ApplyAllFailureSticks(st: FrameState, used: map<string, string>,
                                                 read: string -> Option<seq<bv8>>, events: seq<Event>, n: nat, m: nat)
    requires n <= m <= |events| && ApplyAll(st, used, read, events, n).Failure?
    ensures ApplyAll(st, used, read, events, m) == ApplyAll(st, used, read, events, n)
    decreases m - n
  {
    if n < m {
      ApplyAllFailureSticks(st, used, read, events, n, m - 1);
    }
  }

  /** The first `n` events of a list are applied the same way as the whole of its prefix of
      length `n`: the run depends only on the events it reaches. */
  lemma {:induction false} ApplyAllPrefix(st: FrameState, used: map<string, string>,
                                          read: string -> Option<seq<bv8>>, events: seq<Event>, more: seq<Event>, n: nat)
    requires n <= |events|
    ensures ApplyAll(st, used, read, events + more, n) == ApplyAll(st, used, read, events, n)
  {
    if n > 0 {
      ApplyAllPrefix(st, used, read, events, more, n - 1);
      assert (events + more)[n - 1] == events[n - 1];
    }
  }

  /** The asset cache is write-once: over any run of events no entry is removed or replaced. */
  lemma {:induction false} CacheWriteOnce(st: FrameState, used: map<string, string>,
                                          read: string -> Option<seq<bv8>>, events: seq<Event>, n: nat)
    requires n <= |events| && ApplyAll(st, used, read, events, n).Success?
    ensures forall k :: k in st.assets ==>
      k in ApplyAll(st, used, read, events, n).value.assets &&
      ApplyAll(st, used, read, events, n).value.assets[k] == st.assets[k]
  {
    if n > 0 {
      CacheWriteOnce(st, used, read, events, n - 1);
    }
  }

  /** A frame's overlay state (`Frame`). The cache is one map field here; in the program it
      is shared between clones of the frame. */
  class Frame {
    var assets: map<string, seq<bv8>>
    var contents: seq<Event>
    var resolution: (nat, nat)

    /** The value this frame holds. */
    function State(): FrameState
      reads this
    {
      FrameState(contents, assets)
    }

    /** `Frame::new`: no active events and an empty cache. */
    constructor (resolution: (nat, nat))
      ensures State() == Initial
      ensures this.resolution == resolution
    {
      assets := map[];
      contents := [];
      this.resolution := resolution;
    }

    /** `Frame::apply`. On failure the program aborts; the model then reports the error and
        leaves the state as it was. */
    method Apply(used: map<string, string>, read: string -> Option<seq<bv8>>, event: Event)
      returns (r: Result<(), FrameError>)
      modifies this
      ensures r.Success? <==> ApplyTo(old(State()), used, read, event).Success?
      ensures r.Success? ==> State() == ApplyTo(old(State()), used, read, event).value
      ensures r.Failure? ==> r.error == ApplyTo(old(State()), used, read, event).error && State() == old(State())
      ensures resolution == old(resolution)
    {
      match event.info
      case JsStart(_) =>
        return Failure(NotImplemented);
      case ImgStart(slug, _) =>
        if slug !in assets {
          if slug !in used {
            return Failure(UndefinedResource(slug));
          }
          var bytes := read(used[slug]);
          if bytes.None? {
            return Failure(IllegibleResource(slug));
          }
          assets := assets[slug := bytes.value];
        }
        contents := contents + [event];
        return Success(());
      case _ =>
        contents := Without(contents, event.uuid);
        return Success(());
    }
  }

  /** What the sequential stage hands to the drawing stage for one frame: the frame number,
      its time and a copy of the overlay state. */
  datatype Snapshot = Snapshot(frame: nat, time: real, state: FrameState)

  /** The time of frame `frame` at `rate` frames per second. */
  function FrameTime(frame: nat, rate: nat): real
    requires rate > 0
  {
    frame as real / rate as real
  }

  /** How many events, from `cursor` on, a frame at `time` consumes: the longest run of
      events whose timestamps are all before `time`. */
  function Consumed(events: seq<Event>, cursor: nat, time: real): (k: nat)
    requires cursor <= |events|
    ensures cursor + k <= |events|
    decreases |events| - cursor
  {
    if cursor == |events| || events[cursor].timestamp >= time then 0
    else 1 + Consumed(events, cursor + 1, time)
  }

  /** The run a frame consumes is maximal: every event in it is before `time`, and the event
      after it, if any, is not. */
  lemma {:induction false} ConsumedSpec(events: seq<Event>, cursor: nat, time: real)
    requires cursor <= |events|
    ensures forall j :: cursor <= j < cursor + Consumed(events, cursor, time) ==> events[j].timestamp < time
    ensures cursor + Consumed(events, cursor, time) == |events| ||
      events[cursor + Consumed(events, cursor, time)].timestamp >= time
    decreases |events| - cursor
  {
    if cursor < |events| && events[cursor].timestamp < time {
      ConsumedSpec(events, cursor + 1, time);
    }
  }

  /** The cursor after frames 1 .. `frame` have been processed. */
  function CursorAfter(events: seq<Event>, rate: nat, frame: nat): (c: nat)
    requires rate > 0
    ensures c <= |events|
  {
    if frame == 0 then 0
    else
      var c := CursorAfter(events, rate, frame - 1);
      c + Consumed(events, c, FrameTime(frame, rate))
  }

  /** The cursor never moves backwards. */
  lemma {:induction false} CursorMonotone(events: seq<Event>, rate: nat, m: nat, n: nat)
    requires rate > 0 && m <= n
    ensures CursorAfter(events, rate, m) <= CursorAfter(events, rate, n)
    decreases n - m
  {
    if m < n {
      CursorMonotone(events, rate, m, n - 1);
      CursorStep(events, rate, n);
    }
  }

  /** One frame moves the cursor forward by the events it consumes. */
  lemma CursorStep(events: seq<Event>, rate: nat, n: nat)
    requires rate > 0 && n > 0
    ensures CursorAfter(events, rate, n - 1) <= CursorAfter(events, rate, n)
  {
  }

  /** Every event consumed by frame `n` has a timestamp before that frame's time, and the
      first event not yet consumed (if any) is not before it. */
  lemma {:induction false} ConsumedBeforeTime(events: seq<Event>, rate: nat, n: nat)
    requires rate > 0
    ensures forall j :: 0 <= j < CursorAfter(events, rate, n) ==> events[j].timestamp < FrameTime(n, rate)
    ensures n > 0 && CursorAfter(events, rate, n) < |events| ==>
      events[CursorAfter(events, rate, n)].timestamp >= FrameTime(n, rate)
  {
    if n > 0 {
      ConsumedBeforeTime(events, rate, n - 1);
      ConsumedSpec(events, CursorAfter(events, rate, n - 1), FrameTime(n, rate));
      assert FrameTime(n - 1, rate) < FrameTime(n, rate) by {
        assert (n - 1) as real < n as real;
        DivMonotone((n - 1) as real, n as real, rate as real);
      }
    }
  }

  lemma DivMonotone(a: real, b: real, d: real)
    requires a < b && d > 0.0
    ensures a / d < b / d
  {
    assert b / d - a / d == (b - a) / d;
  }

  /** Any count that meets the three defining properties of `Consumed` is `Consumed`. */
  lemma {:induction false} ConsumedUnique(events: seq<Event>, cursor: nat, time: real, k: nat)
    requires cursor + k <= |events|
    requires forall j :: cursor <= j < cursor + k ==> events[j].timestamp < time
    requires cursor + k == |events| || events[cursor + k].timestamp >= time
    ensures Consumed(events, cursor, time) == k
    decreases k
  {
    if k > 0 {
      ConsumedUnique(events, cursor + 1, time, k - 1);
    }
  }

  /** The last frame number whose time can be before `length`. */
  function LastFrame(rate: nat, length: real): int {
    (length * rate as real).Floor
  }

  /** A frame time below `length` bounds the frame number by `length * rate`. */
  lemma FrameBound(frame: nat, rate: nat, length: real)
    requires rate > 0 && FrameTime(frame, rate) < length
    ensures frame <= LastFrame(rate, length)
  {
    assert frame as real == FrameTime(frame, rate) * rate as real;
    assert frame as real < length * rate as real;
  }

  /** Appending the snapshot of frame `|snaps| + 1` keeps `FramesOf`. */
  lemma FramesOfSnoc(tl: Timeline, used: map<string, string>, read: string -> Option<seq<bv8>>,
                     snaps: seq<Snapshot>, s: Snapshot)
    requires tl.rate > 0 && FramesOf(tl, used, read, snaps)
    requires s.frame == |snaps| + 1 && s.time == FrameTime(s.frame, tl.rate) && s.time < tl.length
    requires ApplyAll(Initial, used, read, tl.events, CursorAfter(tl.events, tl.rate, s.frame)) == Success(s.state)
    ensures FramesOf(tl, used, read, snaps + [s])
  {
    var snaps' := snaps + [s];
    forall j | 0 <= j < |snaps'|
      ensures snaps'[j].frame == j + 1 && snaps'[j].time == FrameTime(j + 1, tl.rate) && snaps'[j].time < tl.length
      ensures ApplyAll(Initial, used, read, tl.events, CursorAfter(tl.events, tl.rate, j + 1)) == Success(snaps'[j].state)
    {
      if j < |snaps| {
        assert snaps'[j] == snaps[j];
      }
    }
  }

  /** The number of events due before `time` from `cursor` on
      (`events.iter().skip(cursor).take_while(|v| v.timestamp < time)`). */
  method TakeDue(events: seq<Event>, cursor: nat, time: real) returns (k: nat)
    requires cursor <= |events|
    ensures k == Consumed(events, cursor, time)
  {
    k := 0;
    while cursor + k < |events| && events[cursor + k].timestamp < time
      invariant cursor + k <= |events|
      invariant forall j :: cursor <= j < cursor + k ==> events[j].timestamp < time
    {
      k := k + 1;
    }
    ConsumedUnique(events, cursor, time, k);
  }

  /** Applies `events[i]` to `base`, which holds the state of the events before it. */
  method ApplyNext(base: Frame, used: map<string, string>, read: string -> Option<seq<bv8>>,
                   events: seq<Event>, i: nat)
    returns (r: Result<(), FrameError>)
    requires i < |events|
    requires ApplyAll(Initial, used, read, events, i) == Success(base.State())
    modifies base
    ensures r.Success? ==> ApplyAll(Initial, used, read, events, i + 1) == Success(base.State())
    ensures r.Failure? ==> ApplyAll(Initial, used, read, events, i + 1) == Failure(r.error)
  {
    r := base.Apply(used, read, events[i]);
  }

  /** Applies `events[start..end]` to `base` in order, stopping at the first failure: the
      first event, then the rest. */
  method ApplyRange(base: Frame, used: map<string, string>, read: string -> Option<seq<bv8>>,
                    events: seq<Event>, start: nat, end: nat)
    returns (r: Result<(), FrameError>)
    requires start <= end <= |events|
    requires ApplyAll(Initial, used, read, events, start) == Success(base.State())
    modifies base
    ensures r.Success? ==> ApplyAll(Initial, used, read, events, end) == Success(base.State())
    ensures r.Failure? ==> ApplyAll(Initial, used, read, events, end) == Failure(r.error)
    decreases end - start
  {
    if start == end {
      return Success(());
    }
    var res := ApplyNext(base, used, read, events, start);
    if res.Failure? {
      ApplyAllFailureSticks(Initial, used, read, events, start + 1, end);
      return Failure(res.error);
    }
    r := ApplyRange(base, used, read, events, start + 1, end);
  }

  /** The frames a successful render produces, frame `j + 1` at index `j`: each is before the
      timeline's end and holds the state reached by applying every event consumed so far. */
  ghost predicate FramesOf(tl: Timeline, used: map<string, string>, read: string -> Option<seq<bv8>>,
                           snaps: seq<Snapshot>)
    requires tl.rate > 0
  {
    forall j :: 0 <= j < |snaps| ==>
      snaps[j].frame == j + 1 &&
      snaps[j].time == FrameTime(j + 1, tl.rate) &&
      snaps[j].time < tl.length &&
      ApplyAll(Initial, used, read, tl.events, CursorAfter(tl.events, tl.rate, j + 1)) == Success(snaps[j].state)
  }

  /** One frame of the sequential stage: consume the events due before the frame's time
      from the cursor on and apply them to `base`. */
  method RenderFrame(tl: Timeline, used: map<string, string>, read: string -> Option<seq<bv8>>,
                     base: Frame, cursor: nat, frame: nat)
    returns (next: nat, r: Result<(), FrameError>)
    requires tl.rate > 0 && frame >= 1
    requires cursor == CursorAfter(tl.events, tl.rate, frame - 1)
    requires ApplyAll(Initial, used, read, tl.events, cursor) == Success(base.State())
    modifies base
    ensures next == CursorAfter(tl.events, tl.rate, frame)
    ensures r.Success? ==> ApplyAll(Initial, used, read, tl.events, next) == Success(base.State())
    ensures r.Failure? ==> ApplyAll(Initial, used, read, tl.events, next) == Failure(r.error)
  {
    var k := TakeDue(tl.events, cursor, FrameTime(frame, tl.rate));
    next := cursor + k;
    r := ApplyRange(base, used, read, tl.events, cursor, next);
  }

  /** The sequential stage of `Timeline::render`: for frames 1, 2, ... while the frame's
      time is before the timeline's length, consume the due events from the cursor on, apply
      them to the running frame state, and emit a snapshot. */
  method Render(tl: Timeline, used: map<string, string>, read: string -> Option<seq<bv8>>)
    returns (r: Result<seq<Snapshot>, FrameError>)
    ensures tl.rate == 0 ==> r == Success([])
    ensures r.Success? && tl.rate > 0 ==> FramesOf(tl, used, read, r.value)
    ensures r.Success? && tl.rate > 0 ==> FrameTime(|r.value| + 1, tl.rate) >= tl.length
    ensures r.Failure? ==>
      (tl.rate > 0 &&
       exists n: nat :: 1 <= n && FrameTime(n, tl.rate) < tl.length &&
         ApplyAll(Initial, used, read, tl.events, CursorAfter(tl.events, tl.rate, n)) == Failure(r.error))
  {
    if tl.rate == 0 {
      // Every frame time is +infinity, so no frame is before the end.
      return Success([]);
    }
    var base := new Frame(tl.resolution);
    var cursor := 0;
    var snaps: seq<Snapshot> := [];
    var frame := 1;
    ghost var lastFrame := LastFrame(tl.rate, tl.length);
    while FrameTime(frame, tl.rate) < tl.length
      invariant frame == |snaps| + 1
      invariant cursor == CursorAfter(tl.events, tl.rate, frame - 1)
      invariant ApplyAll(Initial, used, read, tl.events, cursor) == Success(base.State())
      invariant FramesOf(tl, used, read, snaps)
      decreases lastFrame - frame
    {
      FrameBound(frame, tl.rate, tl.length);
      var res;
      cursor, res := RenderFrame(tl, used, read, base, cursor, frame);
      if res.Failure? {
        return Failure(res.error);
      }
      var snap := Snapshot(frame, FrameTime(frame, tl.rate), base.State());
      FramesOfSnoc(tl, used, read, snaps, snap);
      snaps := snaps + [snap];
      frame := frame + 1;
    }
    return Success(snaps);
  }

  /** The decimal digit character for `d`. */
  function DigitChar(d: nat): char
    requires d < 10
  {
    ('0' as int + d) as char
  }

  predicate IsDigit(c: char) {
    '0' as int <= c as int <= '9' as int
  }

  /** `n.to_string()`: the decimal digits of `n`, without leading zeros. */
  function Digits(n: nat): (s: string)
    ensures |s| >= 1
    ensures forall i :: 0 <= i < |s| ==> IsDigit(s[i])
    ensures n > 0 ==> s[0] != '0'
  {
    if n < 10 then [DigitChar(n)] else Digits(n / 10) + [DigitChar(n % 10)]
  }

  /** The value of a decimal digit character. */
  function DigitValue(c: char): nat
    requires IsDigit(c)
  {
    c as int - '0' as int
  }

  /** The number a string of decimal digits denotes (what a `%10d` pattern reads back). */
  function ParseDecimal(s: string): nat
    requires forall i :: 0 <= i < |s| ==> IsDigit(s[i])
  {
    if s == [] then 0
    else ParseDecimal(s[..|s| - 1]) * 10 + DigitValue(s[|s| - 1])
  }

  /** Reading back the digits of `n` gives `n`. */
  lemma {:induction false} ParseDigits(n: nat)
    ensures ParseDecimal(Digits(n)) == n
  {
    if n >= 10 {
      var s := Digits(n);
      assert s[..|s| - 1] == Digits(n / 10);
      ParseDigits(n / 10);
    }
  }

  /** A string of `k` zero characters. */
  function Zeros(k: nat): (z: string)
    ensures |z| == k
    ensures forall i :: 0 <= i < k ==> z[i] == '0'
  {
    if k == 0 then [] else Zeros(k - 1) + ['0']
  }

  /** One leading zero does not change the number a digit string denotes. */
  lemma {:induction false} ParseLeadingZero(t: string)
    requires forall i :: 0 <= i < |t| ==> IsDigit(t[i])
    ensures forall i :: 0 <= i < |"0" + t| ==> IsDigit(("0" + t)[i])
    ensures ParseDecimal("0" + t) == ParseDecimal(t)
  {
    var u := "0" + t;
    assert forall i :: 0 < i < |u| ==> u[i] == t[i - 1];
    if t != [] {
      var t' := t[..|t| - 1];
      assert u[..|u| - 1] == "0" + t';
      ParseLeadingZero(t');
    }
  }

  /** Leading zeros do not change the number a digit string denotes. */
  lemma {:induction false} ParseLeadingZeros(k: nat, s: string)
    requires forall i :: 0 <= i < |s| ==> IsDigit(s[i])
    ensures forall i :: 0 <= i < |Zeros(k) + s| ==> IsDigit((Zeros(k) + s)[i])
    ensures ParseDecimal(Zeros(k) + s) == ParseDecimal(s)
  {
    if k == 0 {
      assert Zeros(k) + s == s;
    } else {
      ZerosPrepend(k - 1);
      assert Zeros(k) + s == "0" + (Zeros(k - 1) + s);
      ParseLeadingZeros(k - 1, s);
      ParseLeadingZero(Zeros(k - 1) + s);
    }
  }

  /** The frame file's number part: the frame number's digits left-padded with '0' to at
      least ten characters. */
  method PaddedFrameNumber(frame: nat) returns (count: string)
    ensures |count| == if |Digits(frame)| < 10 then 10 else |Digits(frame)|
    ensures count == Zeros(|count| - |Digits(frame)|) + Digits(frame)
    ensures forall i :: 0 <= i < |count| ==> IsDigit(count[i])
    ensures ParseDecimal(count) == frame
  {
    var digits := Digits(frame);
    count := digits;
    ghost var pad := 0;
    assert Zeros(0) + digits == digits;
    while |count| < 10
      invariant count == Zeros(pad) + digits
      invariant |count| == pad + |digits|
      invariant |digits| < 10 ==> |count| <= 10
      invariant |digits| >= 10 ==> pad == 0
      decreases 10 - |count|
    {
      PrependZero(pad, digits);
      count := "0" + count;
      pad := pad + 1;
    }
    PaddedDigits(frame, pad);
  }

  /** What padding the digits of `frame` with `pad` zeros gives: digits only, and the same
      number. */
  lemma PaddedDigits(frame: nat, pad: nat)
    ensures forall i :: 0 <= i < |Zeros(pad) + Digits(frame)| ==> IsDigit((Zeros(pad) + Digits(frame))[i])
    ensures ParseDecimal(Zeros(pad) + Digits(frame)) == frame
  {
    ParseDigits(frame);
    ParseLeadingZeros(pad, Digits(frame));
  }

  /** One more leading zero. */
  lemma PrependZero(k: nat, digits: string)
    ensures "0" + (Zeros(k) + digits) == Zeros(k + 1) + digits
  {
    ZerosPrepend(k);
    assert "0" + (Zeros(k) + digits) == ("0" + Zeros(k)) + digits;
  }

  lemma {:induction false} ZerosPrepend(k: nat)
    ensures Zeros(k + 1) == ['0'] + Zeros(k)
  {
    if k > 0 {
      ZerosPrepend(k - 1);
    }
  }
}
