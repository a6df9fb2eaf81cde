/** The world: an insertion-ordered list of objects and the per-tick orchestration of collisions and
    physics. The camera is not modelled. */
module Worlds {
  import opened Objects

  /** No Player is followed by another Player, so no Player-vs-Player collision can arise. */
  predicate AtMostOnePlayer(s: seq<ObjectState>) {
    forall i, j :: 0 <= i < j < |s| && s[i].kind.Player? ==> !s[j].kind.Player?
  }

  /** `o` collided, in order, with every object of `others`. */
  function CollideAll(o: ObjectState, others: seq<ObjectState>): (r: ObjectState)
    requires o.kind.Player? ==> forall k :: 0 <= k < |others| ==> !others[k].kind.Player?
    ensures r.kind == o.kind && r.size == o.size && r.trail == o.trail && r.rotation == o.rotation
    ensures !o.kind.Player? ==> r == o
    ensures !o.alive ==> !r.alive
    decreases |others|
  {
    if |others| == 0 then o
    else
      var before := CollideAll(o, others[..|others| - 1]);
      CollisionResponse(before, others[|others| - 1]);
      Collided(before, others[|others| - 1])
  }

  /** The objects after one tick, from the objects before it: each object collides with every
      object stored after it, as those were before the tick, and then takes its physics step. */
  function Tick(s: seq<ObjectState>): (r: seq<ObjectState>)
    requires AtMostOnePlayer(s)
    ensures |r| == |s|
  {
    TickPrefix(s, |s|)
  }

  /** The first `n` objects after the tick. */
  function TickPrefix(s: seq<ObjectState>, n: nat): (r: seq<ObjectState>)
    requires AtMostOnePlayer(s) && n <= |s|
    ensures |r| == n
  {
    if n == 0 then [] else TickPrefix(s, n - 1) + [Updated(CollideAll(s[n - 1], s[n..]))]
  }

  /** Object `i` after the tick. */
  lemma {:induction false} TickAt(s: seq<ObjectState>, n: nat, i: nat)
    requires AtMostOnePlayer(s) && i < n <= |s|
    ensures TickPrefix(s, n)[i] == Updated(CollideAll(s[i], s[i + 1..]))
  {
    if i < n - 1 {
      TickAt(s, n - 1, i);
    }
  }

  /** Some Player is alive. */
  predicate Playing(s: seq<ObjectState>) {
    PlayingUpTo(s, |s|)
  }

  /** Some Player among the first `n` objects is alive, accumulated in order as the tick does. */
  predicate PlayingUpTo(s: seq<ObjectState>, n: nat)
    requires n <= |s|
  {
    n > 0 && (PlayingUpTo(s, n - 1) || s[n - 1].IsLivePlayer())
  }

  /** The accumulated flag holds exactly when some object among the first `n` is a living Player. */
  lemma {:induction false} PlayingUpToIff(s: seq<ObjectState>, n: nat)
    requires n <= |s|
    ensures PlayingUpTo(s, n) <==> exists k :: 0 <= k < n && s[k].IsLivePlayer()
  {
    if n > 0 {
      PlayingUpToIff(s, n - 1);
    }
  }

  /** A tick keeps the list's length and every object's kind tag, size and liveness of the dead,
      and keeps every trail within its bound. */
  lemma TickKeepsShape(s: seq<ObjectState>)
    requires AtMostOnePlayer(s)
    ensures |Tick(s)| == |s|
    ensures forall i :: 0 <= i < |s| ==> SameTag(Tick(s)[i].kind, s[i].kind) && Tick(s)[i].size == s[i].size
    ensures forall i :: 0 <= i < |s| && !s[i].alive ==> !Tick(s)[i].alive
    ensures forall i :: 0 <= i < |s| && |s[i].trail| <= TrailLength ==> |Tick(s)[i].trail| <= TrailLength
    ensures forall i :: 0 <= i < |s| && !s[i].kind.Player? ==> Tick(s)[i].speed == s[i].speed
  {
    forall i | 0 <= i < |s| ensures Tick(s)[i] == Updated(CollideAll(s[i], s[i + 1..])) {
      TickAt(s, |s|, i);
      UpdatedPhysics(CollideAll(s[i], s[i + 1..]));
    }
  }

  /** Only the objects stored after an object act on it: what comes before it in the list has no
      effect on its tick. */
  lemma TickIgnoresEarlier(before: seq<ObjectState>, o: ObjectState, after: seq<ObjectState>)
    requires AtMostOnePlayer(before + [o] + after)
    ensures AtMostOnePlayer([o] + after)
    ensures Tick(before + [o] + after)[|before|] == Tick([o] + after)[0]
  {
    var s := before + [o] + after;
    assert forall k :: 0 <= k < |[o] + after| ==> ([o] + after)[k] == s[|before| + k];
    TickAt(s, |s|, |before|);
    TickAt([o] + after, |[o] + after|, 0);
    assert s[|before| + 1..] == after == ([o] + after)[1..];
  }

  /** Once no Player is alive, the world is not playing after any further tick. */
  lemma NoRevival(s: seq<ObjectState>)
    requires AtMostOnePlayer(s)
    requires forall k :: 0 <= k < |s| ==> !s[k].IsLivePlayer()
    ensures !Playing(Tick(s))
  {
    TickKeepsShape(s);
    PlayingUpToIff(Tick(s), |s|);
  }

  /** The values held by a sequence of objects. */
  function StatesOf(objs: seq<Object>): (s: seq<ObjectState>)
    reads objs
    ensures |s| == |objs| && forall k :: 0 <= k < |objs| ==> s[k] == objs[k].State()
  {
    if |objs| == 0 then [] else StatesOf(objs[..|objs| - 1]) + [objs[|objs| - 1].State()]
  }

  class World {
    var objects: seq<Object>
    var playing: bool

    /** Every slot holds its own object. */
    ghost predicate Valid()
      reads this
    {
      forall i, j :: 0 <= i < j < |objects| ==> objects[i] != objects[j]
    }

    /** The values of the objects, in order. */
    function States(): (s: seq<ObjectState>)
      reads this, objects
      ensures |s| == |objects| && forall k :: 0 <= k < |objects| ==> s[k] == objects[k].State()
    {
      StatesOf(objects)
    }

    /** An empty world that is playing. */
    constructor ()
      ensures Valid() && objects == [] && playing
    {
      objects := [];
      playing := true;
    }

    function IsPlaying(): (r: bool)
      reads this
      ensures r == playing
    {
      playing
    }

    /** Appends an object at the end; the other objects and their order stay as they were. */
    method AddObject(o: ObjectState)
      requires Valid()
      modifies this
      ensures Valid() && playing == old(playing)
      ensures |objects| == old(|objects|) + 1 && objects[..old(|objects|)] == old(objects)
      ensures fresh(objects[|objects| - 1])
      ensures States() == old(States()) + [o]
    {
      var slot := new Object(o);
      objects := objects + [slot];
    }

    /** The inner loop of a tick: the object at `i` collides, in increasing order, with every
        object stored after it; only that object changes. */
    method CollideWithLater(i: nat, ghost s0: seq<ObjectState>)
      requires Valid() && i < |objects| == |s0|
      requires forall k :: i <= k < |objects| ==> objects[k].State() == s0[k]
      requires s0[i].kind.Player? ==> forall k :: i < k < |objects| ==> !s0[k].kind.Player?
      modifies objects[i]
      ensures objects[i].State() == CollideAll(s0[i], s0[i + 1..])
    {
      var j := i + 1;
      while j < |objects|
        invariant i < j <= |objects|
        invariant objects[i].State() == CollideAll(s0[i], s0[i + 1..j])
        invariant forall k :: i < k < |objects| ==> objects[k].State() == s0[k]
      {
        assert s0[i + 1..j + 1][..j - i - 1] == s0[i + 1..j];
        objects[i].Collide(objects[j]);
        j := j + 1;
      }
      assert s0[i + 1..j] == s0[i + 1..];
    }

    /** Step `i` of a tick: the collisions of object `i` with the later objects, its update, and
        the raising of `playing` when it is a living Player. */
    method UpdateAt(i: nat, ghost s0: seq<ObjectState>)
      requires Valid() && i < |objects| == |s0| && AtMostOnePlayer(s0)
      requires forall k :: i <= k < |objects| ==> objects[k].State() == s0[k]
      modifies this`playing, objects[i]
      ensures objects[i].State() == Tick(s0)[i]
      ensures forall k :: 0 <= k < |objects| && k != i ==> objects[k].State() == old(objects[k].State())
      ensures playing == (old(playing) || Tick(s0)[i].IsLivePlayer())
    {
      CollideWithLater(i, s0);
      objects[i].Update();
      TickAt(s0, |s0|, i);

      if objects[i].kind.Player? {
        if objects[i].alive {
          playing := true;
        }
      }
    }

    /** One tick: for each index in increasing order, the object collides with every later object
        and then updates; `playing` ends true exactly when some Player is alive after its update. */
    method Update()
      requires Valid() && AtMostOnePlayer(States())
      modifies this, objects
      ensures Valid() && objects == old(objects)
      ensures States() == Tick(old(States()))
      ensures playing == Playing(Tick(old(States())))
    {
      ghost var s0 := States();
      ghost var after := Tick(s0);
      playing := false;

      var i := 0;
      while i < |objects|
        invariant 0 <= i <= |objects| && objects == old(objects) && Valid()
        invariant forall k :: 0 <= k < i ==> objects[k].State() == after[k]
        invariant forall k :: i <= k < |objects| ==> objects[k].State() == s0[k]
        invariant playing == PlayingUpTo(after, i)
      {
        UpdateAt(i, s0);
        i := i + 1;
      }
      assert States() == after;
    }
  }
}
