/** The `prev` and `next` maps of the bar-chart race. All entries of all
    keyframes are flattened in order and grouped by name; within each name's
    group, `next` sends an entry to the following one and `prev` sends it back.
    The maps are keyed by entry object, so an entry is identified here by its
    position: keyframe `frame`, place `pos` in that keyframe's ranking. */
module Links {
  import opened Seqs
  import opened Ranking
  import opened Keyframes

  /** An entry object of the keyframes, by position. */
  datatype Ref = Ref(frame: nat, pos: nat)

  predicate Valid(fs: seq<Keyframe>, r: Ref) {
    r.frame < |fs| && r.pos < |fs[r.frame].entries|
  }

  function At(fs: seq<Keyframe>, r: Ref): Entry
    requires Valid(fs, r)
  {
    fs[r.frame].entries[r.pos]
  }

  /** `r` comes before `s` in the flattened order of `keyframes.flatMap`. */
  predicate Before(r: Ref, s: Ref) {
    r.frame < s.frame || (r.frame == s.frame && r.pos < s.pos)
  }

  predicate InFlatOrder(t: seq<Ref>) {
    forall i, j :: 0 <= i < j < |t| ==> Before(t[i], t[j])
  }

  /** The places of `es` (the entries of keyframe `f`) holding `name`. */
  function Positions(es: seq<Entry>, name: string, f: nat): (t: seq<Ref>)
    ensures forall i :: 0 <= i < |t| ==> t[i].frame == f && t[i].pos < |es| && es[t[i].pos].name == name
    ensures forall q :: 0 <= q < |es| && es[q].name == name ==> Ref(f, q) in t
    ensures InFlatOrder(t)
  {
    if |es| == 0 then []
    else
      var init := Positions(es[..|es| - 1], name, f);
      if es[|es| - 1].name == name then init + [Ref(f, |es| - 1)] else init
  }

  /** One group of `d3.groups(..., d => d.name)`: the entries named `name`,
      in flattened order. */
  function Track(fs: seq<Keyframe>, name: string): (t: seq<Ref>)
    ensures forall i :: 0 <= i < |t| ==> Valid(fs, t[i]) && At(fs, t[i]).name == name
    ensures forall r :: Valid(fs, r) && At(fs, r).name == name ==> r in t
    ensures InFlatOrder(t)
  {
    if |fs| == 0 then []
    else
      var init := fs[..|fs| - 1];
      var t0 := Track(init, name);
      var t1 := Positions(fs[|fs| - 1].entries, name, |fs| - 1);
      TrackSnoc(fs, name, t0, t1);
      t0 + t1
  }

  /** The track in all keyframes is the track in all but the last, followed
      by the positions in the last. */
  lemma TrackSnoc(fs: seq<Keyframe>, name: string, t0: seq<Ref>, t1: seq<Ref>)
    requires |fs| > 0
    requires forall i :: 0 <= i < |t0| ==> Valid(fs[..|fs| - 1], t0[i]) && At(fs[..|fs| - 1], t0[i]).name == name
    requires forall r :: Valid(fs[..|fs| - 1], r) && At(fs[..|fs| - 1], r).name == name ==> r in t0
    requires InFlatOrder(t0)
    requires t1 == Positions(fs[|fs| - 1].entries, name, |fs| - 1)
    ensures forall i :: 0 <= i < |t0 + t1| ==> Valid(fs, (t0 + t1)[i]) && At(fs, (t0 + t1)[i]).name == name
    ensures forall r :: Valid(fs, r) && At(fs, r).name == name ==> r in t0 + t1
    ensures InFlatOrder(t0 + t1)
  {
    var init := fs[..|fs| - 1];
    var last := |fs| - 1;
    var t := t0 + t1;
    forall i | 0 <= i < |t| ensures Valid(fs, t[i]) && At(fs, t[i]).name == name {
      if i < |t0| {
        assert t[i] == t0[i] && Valid(init, t0[i]);
        assert init[t0[i].frame] == fs[t0[i].frame];
      } else {
        assert t[i] == t1[i - |t0|];
      }
    }
    forall r | Valid(fs, r) && At(fs, r).name == name ensures r in t {
      if r.frame < last {
        assert init[r.frame] == fs[r.frame];
        assert Valid(init, r) && At(init, r) == At(fs, r);
      } else {
        assert Ref(last, r.pos) == r;
      }
    }
    forall i, j | 0 <= i < j < |t| ensures Before(t[i], t[j]) {
      if j < |t0| {
        assert t[i] == t0[i] && t[j] == t0[j];
      } else if i >= |t0| {
        assert t[i] == t1[i - |t0|] && t[j] == t1[j - |t0|];
      } else {
        assert t[i] == t0[i] && Valid(init, t0[i]);
        assert t[j] == t1[j - |t0|];
      }
    }
  }

  /** `next.get(d)`: the following entry of the same name, if any. */
  function Next(fs: seq<Keyframe>, r: Ref): (s: Option<Ref>)
    requires Valid(fs, r)
  {
    var t := Track(fs, At(fs, r).name);
    var i := IndexOf(t, r);
    if i + 1 < |t| then Some(t[i + 1]) else None
  }

  /** `prev.get(d)`: the preceding entry of the same name, if any. */
  function Prev(fs: seq<Keyframe>, r: Ref): (s: Option<Ref>)
    requires Valid(fs, r)
  {
    var t := Track(fs, At(fs, r).name);
    var i := IndexOf(t, r);
    if i > 0 then Some(t[i - 1]) else None
  }

  /** In a flat-ordered track an element's index is determined by the
      element. */
  lemma InFlatOrderIndex(t: seq<Ref>, i: int)
    requires InFlatOrder(t) && 0 <= i < |t|
    ensures IndexOf(t, t[i]) == i
  {
  }

  /** `next` links an entry to a later entry of the same name, `prev` to an
      earlier one, and each undoes the other. */
  lemma NextPrev(fs: seq<Keyframe>, r: Ref, s: Ref)
    requires Valid(fs, r) && Valid(fs, s)
    ensures Next(fs, r) == Some(s) ==> At(fs, s).name == At(fs, r).name && Before(r, s)
    ensures Prev(fs, s) == Some(r) ==> At(fs, s).name == At(fs, r).name && Before(r, s)
    ensures Next(fs, r) == Some(s) <==> Prev(fs, s) == Some(r)
  {
    var name := At(fs, r).name;
    var t := Track(fs, name);
    if At(fs, s).name == name {
      TrackNeighbours(t, r, s);
    } else {
      assert s !in t;
      assert r !in Track(fs, At(fs, s).name);
    }
  }

  /** In a flat-ordered track, `s` follows `r` exactly when `r` precedes
      `s`, and then `r` comes before `s`. */
  lemma TrackNeighbours(t: seq<Ref>, r: Ref, s: Ref)
    requires InFlatOrder(t) && r in t && s in t
    ensures (IndexOf(t, r) + 1 < |t| && t[IndexOf(t, r) + 1] == s) <==> (IndexOf(t, s) > 0 && t[IndexOf(t, s) - 1] == r)
    ensures IndexOf(t, r) + 1 < |t| && t[IndexOf(t, r) + 1] == s ==> Before(r, s)
  {
    var i := IndexOf(t, r);
    var j := IndexOf(t, s);
    if i + 1 < |t| && t[i + 1] == s {
      InFlatOrderIndex(t, i + 1);
    }
    if j > 0 && t[j - 1] == r {
      InFlatOrderIndex(t, j - 1);
    }
  }

  lemma {:induction false} PositionsNone(es: seq<Entry>, name: string, f: nat)
    requires name !in NamesOf(es)
    ensures Positions(es, name, f) == []
  {
    if |es| > 0 {
      var init := es[..|es| - 1];
      assert NamesOf(es)[|es| - 1] == es[|es| - 1].name;
      assert forall i :: 0 <= i < |init| ==> NamesOf(init)[i] == NamesOf(es)[i];
      PositionsNone(init, name, f);
    }
  }

  /** A name held by exactly one entry of `es` has a single position there. */
  lemma {:induction false} PositionsOnce(es: seq<Entry>, name: string, f: nat)
    requires NoDuplicates(NamesOf(es)) && name in NamesOf(es)
    ensures |Positions(es, name, f)| == 1
  {
    var init := es[..|es| - 1];
    var last := |es| - 1;
    assert NamesOf(es)[last] == es[last].name;
    assert forall i :: 0 <= i < |init| ==> NamesOf(init)[i] == NamesOf(es)[i];
    if es[last].name == name {
      assert name !in NamesOf(init);
      PositionsNone(init, name, f);
    } else {
      assert NoDuplicates(NamesOf(init));
      PositionsOnce(init, name, f);
    }
  }

  /** When every keyframe holds `name` exactly once, its track holds one
      entry per keyframe, in keyframe order. */
  lemma {:induction false} TrackOnePerFrame(fs: seq<Keyframe>, names: seq<string>, name: string)
    requires AllRankAll(fs, names) && NoDuplicates(names) && name in names
    ensures |Track(fs, name)| == |fs|
    ensures forall f :: 0 <= f < |fs| ==> Track(fs, name)[f].frame == f
  {
    if |fs| > 0 {
      var init := fs[..|fs| - 1];
      assert AllRankAll(init, names) by {
        forall p | 0 <= p < |init| ensures RanksAll(init[p].entries, names) {
          assert init[p] == fs[p];
        }
      }
      TrackOnePerFrame(init, names, name);
      var es := fs[|fs| - 1].entries;
      assert RanksAll(es, names);
      var q :| 0 <= q < |names| && names[q] == name;
      PositionsOnce(es, name, |fs| - 1);
    }
  }

  /** When every keyframe ranks all the distinct names once, `next` of an
      entry is the same name's entry in the following keyframe, and `prev` the
      one in the preceding keyframe; entries of the last keyframe have no
      `next` and those of the first have no `prev`. */
  lemma NextIsFollowingFrame(fs: seq<Keyframe>, names: seq<string>, r: Ref)
    requires AllRankAll(fs, names) && NoDuplicates(names) && Valid(fs, r)
    ensures Next(fs, r).Some? <==> r.frame + 1 < |fs|
    ensures Prev(fs, r).Some? <==> r.frame > 0
    ensures Next(fs, r).Some? ==> Next(fs, r).value.frame == r.frame + 1
    ensures Prev(fs, r).Some? ==> Prev(fs, r).value.frame == r.frame - 1
  {
    var name := At(fs, r).name;
    assert RanksAll(fs[r.frame].entries, names);
    TrackOnePerFrame(fs, names, name);
    var t := Track(fs, name);
    var i := IndexOf(t, r);
    FrameTrack(t, |fs|, r);
    assert Next(fs, r) == if i + 1 < |t| then Some(t[i + 1]) else None;
    assert Prev(fs, r) == if i > 0 then Some(t[i - 1]) else None;
  }

  /** In a track holding one entry per frame, frame by frame, an entry's
      index is its frame. */
  lemma FrameTrack(t: seq<Ref>, n: nat, r: Ref)
    requires |t| == n && r in t
    requires forall f :: 0 <= f < n ==> t[f].frame == f
    ensures IndexOf(t, r) == r.frame
    ensures IndexOf(t, r) + 1 < |t| ==> t[IndexOf(t, r) + 1].frame == r.frame + 1
    ensures IndexOf(t, r) > 0 ==> t[IndexOf(t, r) - 1].frame == r.frame - 1
  {
  }
}
