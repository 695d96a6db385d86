/**
 * The two loops with which a call's streams are edited (src/media-channel.c): asking libpurple for new contents,
 * audio and video together as far as they go, and ending streams by id, each of them once.
 */
module StreamEditing {
  import opened Wrappers

  // ----- Requesting contents -----

  type MediaType = nat

  const AUDIO: MediaType := 0
  const VIDEO: MediaType := 1

  /** What the contact can do, when a call exists already. */
  datatype Caps = Caps(modifySession: bool, audio: bool, video: bool)

  /** One call of purple_prpl_initiate_media. */
  datatype Session = Session(audio: bool, video: bool)

  datatype Outcome = Made | InvalidType(t: MediaType) | CannotModify | CapsMismatch | Refused

  ghost predicate Known(t: MediaType) {
    t == AUDIO || t == VIDEO
  }

  ghost predicate FirstUnknown(types: seq<MediaType>, t: MediaType) {
    exists i: nat | i < |types| :: types[i] == t && !Known(t) && forall j: nat | j < i :: Known(types[j])
  }

  /** The calls for a audio and v video contents: while both are wanted, a call carries both. */
  ghost function Sessions(a: nat, v: nat): seq<Session> {
    seq(if a < v then v else a, (k: nat) => Session(k < a, k < v))
  }

  /** The calls made when accept tells which of them libpurple goes along with: up to the first it refuses. */
  ghost predicate MadeUpToRefusal(all: seq<Session>, accept: nat -> bool, calls: seq<Session>, outcome: Outcome) {
    if outcome.Made? then calls == all && forall k: nat | k < |all| :: accept(k)
    else
      && outcome == Refused && 0 < |calls| <= |all| && calls == all[..|calls|]
      && !accept(|calls| - 1) && forall k: nat | k < |calls| - 1 :: accept(k)
  }

  /** The guards on an existing call, as the code has them. */
  ghost function GuardOutcome(types: seq<MediaType>, call: Option<Caps>): Option<Outcome> {
    match call
    case None => None
    case Some(caps) =>
      if !caps.modifySession then Some(CannotModify)
      else if (AUDIO in types ==> caps.audio) && (VIDEO in types ==> caps.video) then Some(CapsMismatch)
      else None
  }

  /** The checks at the head of _haze_media_channel_request_contents. */
  method Check(types: seq<MediaType>, call: Option<Caps>) returns (failure: Option<Outcome>)
    ensures if forall i: nat | i < |types| :: Known(types[i]) then failure == GuardOutcome(types, call)
            else failure.Some? && failure.value.InvalidType? && FirstUnknown(types, failure.value.t)
  {
    var wantAudio, wantVideo := false, false;
    for i := 0 to |types|
      invariant forall j: nat | j < i :: Known(types[j])
      invariant wantAudio <==> AUDIO in types[..i]
      invariant wantVideo <==> VIDEO in types[..i]
    {
      assert types[..i + 1] == types[..i] + [types[i]];
      if types[i] == AUDIO {
        wantAudio := true;
      } else if types[i] == VIDEO {
        wantVideo := true;
      } else {
        return Some(InvalidType(types[i]));
      }
    }
    assert types[..|types|] == types;
    if call.Some? {
      if !call.value.modifySession {
        return Some(CannotModify);
      }
      if (!wantAudio || call.value.audio) && (!wantVideo || call.value.video) {
        return Some(CapsMismatch);
      }
    }
    failure := None;
  }

  /** _haze_media_channel_request_contents */
  method RequestContents(types: seq<MediaType>, call: Option<Caps>, accept: nat -> bool)
    returns (outcome: Outcome, calls: seq<Session>)
    ensures !(forall i: nat | i < |types| :: Known(types[i])) ==>
              calls == [] && outcome.InvalidType? && FirstUnknown(types, outcome.t)
    ensures (forall i: nat | i < |types| :: Known(types[i])) ==>
              match GuardOutcome(types, call)
              case Some(failure) => calls == [] && outcome == failure
              case None =>
                MadeUpToRefusal(Sessions(multiset(types)[AUDIO], multiset(types)[VIDEO]), accept, calls, outcome)
  {
    var failure := Check(types, call);
    if failure.Some? {
      return failure.value, [];
    }
    var audioCount: nat, videoCount: nat := 0, 0;
    for i := 0 to |types|
      invariant audioCount == multiset(types[..i])[AUDIO]
      invariant videoCount == multiset(types[..i])[VIDEO]
    {
      assert types[..i + 1] == types[..i] + [types[i]];
      if types[i] == AUDIO {
        audioCount := audioCount + 1;
      } else if types[i] == VIDEO {
        videoCount := videoCount + 1;
      }
    }
    assert types[..|types|] == types;
    outcome, calls := InitiateAll(audioCount, videoCount, accept);
  }

  /** The loop that makes the calls. */
  method InitiateAll(a: nat, v: nat, accept: nat -> bool) returns (outcome: Outcome, calls: seq<Session>)
    ensures MadeUpToRefusal(Sessions(a, v), accept, calls, outcome)
  {
    var audioCount, videoCount := a, v;
    calls := [];
    while audioCount > 0 || videoCount > 0
      invariant audioCount == (if |calls| < a then a - |calls| else 0)
      invariant videoCount == (if |calls| < v then v - |calls| else 0)
      invariant |calls| <= |Sessions(a, v)| && calls == Sessions(a, v)[..|calls|]
      invariant forall k: nat | k < |calls| :: accept(k)
      decreases audioCount + videoCount
    {
      var session := Session(false, false);
      if audioCount > 0 {
        session := session.(audio := true);
        audioCount := audioCount - 1;
      }
      if videoCount > 0 {
        session := session.(video := true);
        videoCount := videoCount - 1;
      }
      assert session == Sessions(a, v)[|calls|];
      calls := calls + [session];
      if !accept(|calls| - 1) {
        return Refused, calls;
      }
    }
    outcome := Made;
  }

  ghost function Audios(calls: seq<Session>): nat {
    if calls == [] then 0 else Audios(calls[..|calls| - 1]) + if calls[|calls| - 1].audio then 1 else 0
  }

  ghost function Videos(calls: seq<Session>): nat {
    if calls == [] then 0 else Videos(calls[..|calls| - 1]) + if calls[|calls| - 1].video then 1 else 0
  }

  function Min(a: nat, b: nat): nat {
    if a < b then a else b
  }

  lemma {:induction false} PrefixCarries(a: nat, v: nat, n: nat)
    requires n <= |Sessions(a, v)|
    ensures Audios(Sessions(a, v)[..n]) == Min(a, n) && Videos(Sessions(a, v)[..n]) == Min(v, n)
  {
    if n > 0 {
      assert Sessions(a, v)[..n][..n - 1] == Sessions(a, v)[..n - 1];
      PrefixCarries(a, v, n - 1);
    }
  }

  /** Together the calls carry each content wanted exactly once, none of them is empty, and no fewer calls would do;
      those that carry both come first. */
  lemma SessionsCarryAll(a: nat, v: nat)
    ensures Audios(Sessions(a, v)) == a && Videos(Sessions(a, v)) == v
    ensures forall k: nat | k < |Sessions(a, v)| :: Sessions(a, v)[k] != Session(false, false)
    ensures forall calls: seq<Session> | Audios(calls) == a && Videos(calls) == v :: |Sessions(a, v)| <= |calls|
    ensures forall j: nat, k: nat | j < k < |Sessions(a, v)| ::
              var earlier, later := Sessions(a, v)[j], Sessions(a, v)[k];
              (later.audio ==> earlier.audio) && (later.video ==> earlier.video)
  {
    var all := Sessions(a, v);
    assert all[..|all|] == all;
    PrefixCarries(a, v, |all|);
    forall calls: seq<Session> | Audios(calls) == a && Videos(calls) == v
      ensures |all| <= |calls|
    {
      AtMostOneEach(calls);
    }
  }

  lemma {:induction false} AtMostOneEach(calls: seq<Session>)
    ensures Audios(calls) <= |calls| && Videos(calls) <= |calls|
  {
    if calls != [] {
      AtMostOneEach(calls[..|calls| - 1]);
    }
  }

  /**
   * The test of the contact's capabilities on an existing call turns away just the requests the contact could meet:
   * what it lets through names a type the contact does not have.
   */
  lemma GuardLetsThrough(types: seq<MediaType>, caps: Caps)
    ensures GuardOutcome(types, Some(caps)).None? <==>
            caps.modifySession && exists t | t in types :: (t == AUDIO && !caps.audio) || (t == VIDEO && !caps.video)
    ensures GuardOutcome(types, Some(caps)) == Some(CannotModify) <==> !caps.modifySession
    ensures GuardOutcome(types, Some(caps)) in {None, Some(CannotModify), Some(CapsMismatch)}
    ensures GuardOutcome(types, None) == None
  {
    if GuardOutcome(types, Some(caps)).None? {
      assert (AUDIO in types && !caps.audio) || (VIDEO in types && !caps.video);
    }
  }

  /** So the request for audio that a contact with audio alone could meet is turned away, and the one for video goes
      through. */
  lemma GuardIsInverted()
    ensures var caps := Caps(true, true, false);
            GuardOutcome([AUDIO], Some(caps)) == Some(CapsMismatch) && GuardOutcome([VIDEO], Some(caps)).None?
  {
    GuardLetsThrough([VIDEO], Caps(true, true, false));
    assert VIDEO in [VIDEO] && VIDEO !in [AUDIO];
  }

  // ----- Removing streams -----

  /** A stream of the backend; the name stands for the pointer to its name, which no other stream shares. */
  datatype Stream = Stream(id: nat, name: nat)

  datatype Removal = Ended | NotImplemented | NotFound

  /** The name of the first stream with the id. */
  ghost function NameOf(streams: seq<Stream>, id: nat): Option<nat> {
    if streams == [] then None
    else if streams[0].id == id then Some(streams[0].name) else NameOf(streams[1..], id)
  }

  ghost function Names(streams: seq<Stream>, ids: seq<nat>): seq<nat>
    requires forall i: nat | i < |ids| :: NameOf(streams, ids[i]).Some?
  {
    seq(|ids|, i requires 0 <= i < |ids| => NameOf(streams, ids[i]).value)
  }

  /** The elements in the order in which each turns up first. */
  ghost function Distinct(s: seq<nat>): seq<nat> {
    if s == [] then []
    else
      var rest, x := s[..|s| - 1], s[|s| - 1];
      Distinct(rest) + if x in rest then [] else [x]
  }

  lemma {:induction false} DistinctKeepsAll(s: seq<nat>)
    ensures forall x :: x in Distinct(s) <==> x in s
    ensures forall x | x in s :: multiset(Distinct(s))[x] == 1
  {
    if s != [] {
      var rest, x := s[..|s| - 1], s[|s| - 1];
      assert s == rest + [x];
      DistinctKeepsAll(rest);
      if x !in rest {
        assert multiset(Distinct(rest) + [x]) == multiset(Distinct(rest)) + multiset{x};
        assert x !in multiset(Distinct(rest));
      }
    }
  }

  /** x is at p for the first time. */
  ghost predicate FirstAt(s: seq<nat>, p: nat, x: nat) {
    p < |s| && s[p] == x && x !in s[..p]
  }

  /** What is kept is in the order in which it turned up first. */
  lemma {:induction false} DistinctKeepsOrder(s: seq<nat>, i: nat, j: nat)
    requires i < j < |Distinct(s)|
    ensures exists p: nat, q: nat :: p < q && FirstAt(s, p, Distinct(s)[i]) && FirstAt(s, q, Distinct(s)[j])
  {
    var rest, x := s[..|s| - 1], s[|s| - 1];
    assert s == rest + [x];
    var a, b := Distinct(s)[i], Distinct(s)[j];
    if j < |Distinct(rest)| {
      DistinctKeepsOrder(rest, i, j);
      var p: nat, q: nat :| p < q && FirstAt(rest, p, a) && FirstAt(rest, q, b);
      assert s[..p] == rest[..p] && s[..q] == rest[..q];
      assert FirstAt(s, p, a) && FirstAt(s, q, b);
    } else {
      DistinctKeepsAll(rest);
      var p := FirstOccurrence(rest, a);
      assert s[..p] == rest[..p];
      assert FirstAt(s, p, a) && FirstAt(s, |rest|, b);
    }
  }

  lemma {:induction false} FirstOccurrence(s: seq<nat>, x: nat) returns (p: nat)
    requires x in s
    ensures FirstAt(s, p, x)
  {
    p := 0;
    while s[p] != x
      invariant p < |s| && x !in s[..p] && x in s[p..]
      decreases |s| - p
    {
      p := p + 1;
    }
  }

  ghost predicate NoRepeats(s: seq<nat>) {
    forall i: nat, j: nat | i < j < |s| :: s[i] != s[j]
  }

  lemma {:induction false} DistinctAlready(s: seq<nat>)
    requires NoRepeats(s)
    ensures Distinct(s) == s
  {
    if s != [] {
      var rest, x := s[..|s| - 1], s[|s| - 1];
      assert s == rest + [x];
      DistinctAlready(rest);
    }
  }

  ghost function Without(s: seq<nat>, j: nat): seq<nat>
    requires j < |s|
  {
    s[..j] + s[j + 1..]
  }

  lemma {:induction false} RemoveRepeat(s: seq<nat>, i: nat, j: nat)
    requires i < j < |s| && s[i] == s[j]
    ensures Distinct(Without(s, j)) == Distinct(s)
  {
    var rest, x := s[..|s| - 1], s[|s| - 1];
    if j == |s| - 1 {
      assert rest[i] == x && Without(s, j) == rest;
    } else {
      RemoveRepeat(rest, i, j);
      assert Without(s, j) == Without(rest, j) + [x];
      assert Without(s, j)[..|s| - 2] == Without(rest, j);
      assert x in rest <==> x in Without(rest, j) by {
        if x in rest {
          var k :| 0 <= k < |rest| && rest[k] == x;
          assert Without(rest, j)[if k < j then k else if k == j then i else k - 1] == x;
        }
      }
    }
  }

  /** No element before i turns up again. */
  ghost predicate DoneUpTo(s: seq<nat>, i: nat) {
    forall p: nat, q: nat | p < i && p < q < |s| :: s[p] != s[q]
  }

  lemma StillDone(s: seq<nat>, i: nat, j: nat)
    requires i < j < |s| && DoneUpTo(s, i)
    ensures DoneUpTo(Without(s, j), i)
  {
    var s' := Without(s, j);
    forall p: nat, q: nat | p < i && p < q < |s'|
      ensures s'[p] != s'[q]
    {
      assert s'[q] == s[if q < j then q else q + 1];
    }
  }

  /** The nested loops that take out repeated names in place. */
  method Deduplicate(names: seq<nat>) returns (mediaIds: seq<nat>)
    ensures mediaIds == Distinct(names)
  {
    mediaIds := names;
    var i := 0;
    while i < |mediaIds|
      invariant 0 <= i <= |mediaIds|
      invariant DoneUpTo(mediaIds, i) && Distinct(mediaIds) == Distinct(names)
      decreases |mediaIds| - i
    {
      mediaIds := TakeOutRepeats(mediaIds, i);
      i := i + 1;
    }
    DistinctAlready(mediaIds);
  }

  method TakeOutRepeats(names: seq<nat>, i: nat) returns (mediaIds: seq<nat>)
    requires i < |names| && DoneUpTo(names, i)
    ensures i < |mediaIds| <= |names| && DoneUpTo(mediaIds, i + 1) && Distinct(mediaIds) == Distinct(names)
  {
    mediaIds := names;
    var j := i + 1;
    while j < |mediaIds|
      invariant i < j <= |mediaIds| <= |names| && mediaIds[i] == names[i]
      invariant DoneUpTo(mediaIds, i) && Distinct(mediaIds) == Distinct(names)
      invariant forall k: nat | i < k < j :: mediaIds[k] != mediaIds[i]
      decreases |mediaIds| - j
    {
      if mediaIds[i] == mediaIds[j] {
        RemoveRepeat(mediaIds, i, j);
        StillDone(mediaIds, i, j);
        mediaIds := mediaIds[..j] + mediaIds[j + 1..];
        j := j - 1;
      }
      j := j + 1;
    }
  }

  /** The search for a stream by id. */
  method Find(streams: seq<Stream>, id: nat) returns (name: Option<nat>)
    ensures name == NameOf(streams, id)
  {
    var j := 0;
    while j < |streams|
      invariant 0 <= j <= |streams| && NameOf(streams, id) == NameOf(streams[j..], id)
    {
      if streams[j].id == id {
        return Some(streams[j].name);
      }
      j := j + 1;
    }
    name := None;
  }

  /** haze_media_channel_remove_streams; ended lists the names given to purple_media_end, in order. */
  method RemoveStreams(streams: seq<Stream>, ids: seq<nat>, modifySession: bool)
    returns (outcome: Removal, ended: seq<nat>)
    ensures outcome == (if !modifySession then NotImplemented
                        else if forall i: nat | i < |ids| :: NameOf(streams, ids[i]).Some? then Ended else NotFound)
    ensures ended == if outcome.Ended? then Distinct(Names(streams, ids)) else []
  {
    if !modifySession {
      return NotImplemented, [];
    }
    var mediaIds := [];
    for i := 0 to |ids|
      invariant forall k: nat | k < i :: NameOf(streams, ids[k]).Some?
      invariant mediaIds == Names(streams, ids[..i])
    {
      var name := Find(streams, ids[i]);
      if name.None? {
        return NotFound, [];
      }
      mediaIds := mediaIds + [name.value];
    }
    assert ids[..|ids|] == ids;
    mediaIds := Deduplicate(mediaIds);
    ended := [];
    for i := 0 to |mediaIds|
      invariant ended == mediaIds[..i]
    {
      ended := ended + [mediaIds[i]];
    }
    outcome := Ended;
  }

  lemma {:induction false} NameIsOfStream(streams: seq<Stream>, id: nat, i: nat)
    requires i < |streams| && forall j: nat, k: nat | j < k < |streams| :: streams[j].id != streams[k].id
    ensures NameOf(streams, id) == Some(streams[i].name) || streams[i].id != id
  {
    if i > 0 {
      assert streams[0].id != streams[i].id;
      NameIsOfStream(streams[1..], id, i - 1);
    }
  }

  /** When ids and names are the streams' own, a removal ends just the streams asked for, each of them once. */
  lemma EachRequestedStreamEndsOnce(streams: seq<Stream>, ids: seq<nat>, i: nat)
    requires forall j: nat, k: nat | j < k < |streams| ::
               streams[j].id != streams[k].id && streams[j].name != streams[k].name
    requires forall j: nat | j < |ids| :: NameOf(streams, ids[j]).Some?
    requires i < |streams|
    ensures multiset(Distinct(Names(streams, ids)))[streams[i].name] == if streams[i].id in ids then 1 else 0
  {
    var names := Names(streams, ids);
    DistinctKeepsAll(names);
    if streams[i].id in ids {
      var j: nat :| j < |ids| && ids[j] == streams[i].id;
      NameIsOfStream(streams, ids[j], i);
      assert names[j] == streams[i].name;
    } else if streams[i].name in names {
      var j: nat :| j < |names| && names[j] == streams[i].name;
      NamesComeFromStreams(streams, ids[j], i);
      assert false;
    }
  }

  lemma NamesComeFromStreams(streams: seq<Stream>, id: nat, i: nat)
    requires i < |streams| && NameOf(streams, id) == Some(streams[i].name)
    requires forall j: nat, k: nat | j < k < |streams| :: streams[j].name != streams[k].name
    ensures streams[i].id == id
  {
    NameAppears(streams, id);
    var k: nat :| k < |streams| && streams[k].name == streams[i].name && streams[k].id == id;
    assert k == i;
  }

  lemma {:induction false} NameAppears(streams: seq<Stream>, id: nat)
    requires NameOf(streams, id).Some?
    ensures exists i: nat | i < |streams| :: streams[i].name == NameOf(streams, id).value && streams[i].id == id
  {
    if streams[0].id != id {
      NameAppears(streams[1..], id);
      var i: nat :| i < |streams| - 1 && streams[1..][i].name == NameOf(streams, id).value && streams[1..][i].id == id;
      assert streams[i + 1].id == id;
    } else {
      assert streams[0].id == id;
    }
  }
}
