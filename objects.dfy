/** Game objects: the value of an object (constructor, builder setters, the per-tick physics and the
    collision response, all as functions) and the object a world stores and changes in place.
    Floating-point coordinates are modelled as reals. */
module Objects {

  /** A 2D vector of the engine. */
  datatype Vec2 = Vec2(x: real, y: real) {
    function Plus(o: Vec2): Vec2 { Vec2(x + o.x, y + o.y) }
  }

  const Zero: Vec2 := Vec2(0.0, 0.0)

  /** Sub-state of a Player. */
  datatype PlayerState = Running | Jumping | Dying

  /** The closed set of kinds. A Player's animation payload is reduced to its sub-state and the
      current frame of its jump clip. */
  datatype ObjectKind = Player(state: PlayerState, jumpFrame: nat) | Wall | Spike

  /** Two kinds carry the same variant tag (the payload may differ). */
  predicate SameTag(a: ObjectKind, b: ObjectKind) {
    a.Player? == b.Player? && a.Wall? == b.Wall? && a.Spike? == b.Spike?
  }

  const TrailLength: nat := 30
  const DefaultSide: real := 30.0
  const Gravity: real := 1.0
  const Damping: real := 0.95
  const Spin: real := 0.2

  /** The value of an object, field for field. */
  datatype ObjectState = ObjectState(
    position: Vec2,
    size: Vec2,
    speed: Vec2,
    kind: ObjectKind,
    isOnGround: bool,
    alive: bool,
    rotation: real,
    trail: seq<Vec2>)
  {
    /** Builder setter: replaces the position and nothing else. */
    function WithPosition(v: Vec2): (r: ObjectState)
      ensures r.position == v && r.(position := position) == this
    {
      this.(position := v)
    }

    /** Builder setter: replaces the size and nothing else. */
    function WithSize(v: Vec2): (r: ObjectState)
      ensures r.size == v && r.(size := size) == this
    {
      this.(size := v)
    }

    /** Builder setter: replaces the speed and nothing else. */
    function WithSpeed(v: Vec2): (r: ObjectState)
      ensures r.speed == v && r.(speed := speed) == this
    {
      this.(speed := v)
    }

    /** Builder setter: replaces the kind and nothing else. */
    function WithKind(k: ObjectKind): (r: ObjectState)
      ensures r.kind == k && r.(kind := kind) == this
    {
      this.(kind := k)
    }

    /** The midpoint of the box, the point recorded in the trail. */
    function Center(): Vec2 {
      Vec2(position.x + size.x * 0.5, position.y + size.y * 0.5)
    }

    /** Inclusive point-in-box test. */
    predicate Contains(v: Vec2) {
      position.x <= v.x && position.x + size.x >= v.x &&
      position.y <= v.y && position.y + size.y >= v.y
    }

    /** The position after one more tick at the current speed. */
    function Predicted(): Vec2 {
      position.Plus(speed)
    }

    /** The box at the predicted position strictly overlaps the other object's current box. */
    predicate Hits(other: ObjectState) {
      var f := Predicted();
      f.x < other.position.x + other.size.x && f.x + size.x > other.position.x &&
      f.y < other.position.y + other.size.y && f.y + size.y > other.position.y
    }

    predicate IsLivePlayer() {
      kind.Player? && alive
    }
  }

  /** The kind a kind word of a world file names: "Spike" a Spike, "Player" a Player that starts in
      the air with its clips at their first frame, and every other word a Wall. */
  function KindNamed(name: string): (k: ObjectKind)
    ensures k.Spike? <==> name == "Spike"
    ensures k.Player? <==> name == "Player"
    ensures k.Player? ==> k.state == Jumping && k.jumpFrame == 0
  {
    if name == "Spike" then Spike else if name == "Player" then Player(Jumping, 0) else Wall
  }

  /** A fresh object: at the origin, 30 by 30, at rest, a living Wall with an empty trail. */
  function New(): (r: ObjectState)
    ensures r.position == Zero && r.size == Vec2(DefaultSide, DefaultSide) && r.speed == Zero
    ensures r.kind == Wall && !r.isOnGround && r.alive && r.rotation == 0.0 && r.trail == []
  {
    ObjectState(Zero, Vec2(DefaultSide, DefaultSide), Zero, Wall, false, true, 0.0, [])
  }

  /** An object of the given kind, otherwise as New(). */
  function FromKind(k: ObjectKind): (r: ObjectState)
    ensures r.kind == k && r.(kind := Wall) == New()
  {
    New().WithKind(k)
  }

  /** The point-in-box test includes the box's edges: a box of nonnegative size contains its two
      extreme corners and its centre, nothing left of or above it, and the test is unchanged when
      the box and the point move together. */
  lemma BoxContains(o: ObjectState, v: Vec2, d: Vec2)
    requires o.size.x >= 0.0 && o.size.y >= 0.0
    ensures o.Contains(o.position) && o.Contains(o.position.Plus(o.size)) && o.Contains(o.Center())
    ensures v.x < o.position.x || v.y < o.position.y ==> !o.Contains(v)
    ensures v.x > o.position.x + o.size.x || v.y > o.position.y + o.size.y ==> !o.Contains(v)
    ensures o.WithPosition(o.position.Plus(d)).Contains(v.Plus(d)) <==> o.Contains(v)
  {
  }

  /** The three corners of a spike's triangle: apex, left base, right base. */
  function Apex(s: ObjectState): Vec2 { Vec2(s.position.x + s.size.x / 2.0, s.position.y) }
  function LeftBase(s: ObjectState): Vec2 { Vec2(s.position.x, s.position.y + s.size.y) }
  function RightBase(s: ObjectState): Vec2 { s.position.Plus(s.size) }

  /** The box of `o` moved to its predicted position contains a corner of the spike's triangle. */
  predicate TouchesSpike(o: ObjectState, spike: ObjectState) {
    var f := o.WithPosition(o.Predicted());
    f.Contains(Apex(spike)) || f.Contains(LeftBase(spike)) || f.Contains(RightBase(spike))
  }

  /** The Player-vs-Player response is unimplemented: its branch must never be reached. */
  predicate PlayerClash(o: ObjectState, other: ObjectState) {
    o.kind.Player? && other.kind.Player? && o.Hits(other)
  }

  /** `o` lands on the wall: its current bottom edge is at or above the wall's top. */
  predicate Lands(o: ObjectState, wall: ObjectState) {
    o.position.y + o.size.y <= wall.position.y
  }

  /** The collision kills `o`: a Player whose predicted box overlaps a wall it does not land on,
      or overlaps a spike and contains one of its corners. */
  predicate Lethal(o: ObjectState, other: ObjectState) {
    o.kind.Player? && o.Hits(other) &&
    ((other.kind.Wall? && !Lands(o, other)) || (other.kind.Spike? && TouchesSpike(o, other)))
  }

  /** One tick of physics, with the jump input absent: the trail records the centre before the
      move, the position advances by the speed held before this tick, and a Player's speed,
      sub-state, rotation and grounding change as its liveness dictates. */
  function Updated(o: ObjectState): ObjectState
  {
    var pushed := o.trail + [o.Center()];
    var trail := if |pushed| > TrailLength then pushed[1..] else pushed;
    var moved := o.(trail := trail, position := o.position.Plus(o.speed));
    if !o.alive then
      if o.kind.Player? then
        moved.(speed := Vec2(o.speed.x * Damping, o.speed.y + Gravity), kind := o.kind.(state := Dying))
      else
        moved
    else
      var k := if !o.kind.Player? then o.kind
               else if o.isOnGround then o.kind.(state := Running, jumpFrame := 0)
               else o.kind.(state := Jumping);
      var v := if o.kind.Player? then Vec2(o.speed.x, o.speed.y + Gravity) else o.speed;
      moved.(kind := k, speed := v,
             rotation := if !o.isOnGround then o.rotation + Spin else 0.0,
             isOnGround := false)
  }

  /** What a tick of physics does to each field. */
  lemma UpdatedPhysics(o: ObjectState)
    ensures Updated(o).size == o.size && Updated(o).alive == o.alive && SameTag(Updated(o).kind, o.kind)
    ensures Updated(o).position == o.position.Plus(o.speed)
    ensures |o.trail| < TrailLength ==> Updated(o).trail == o.trail + [o.Center()]
    ensures |o.trail| >= TrailLength ==> Updated(o).trail == o.trail[1..] + [o.Center()]
    ensures |o.trail| <= TrailLength ==> |Updated(o).trail| <= TrailLength
    ensures Updated(o).trail[|Updated(o).trail| - 1] == o.Center()
    ensures !o.kind.Player? ==> Updated(o).speed == o.speed && Updated(o).kind == o.kind
    ensures o.kind.Player? && !o.alive ==>
      Updated(o).speed == Vec2(o.speed.x * Damping, o.speed.y + Gravity) && Updated(o).kind == o.kind.(state := Dying) &&
      Updated(o).rotation == o.rotation && Updated(o).isOnGround == o.isOnGround
    ensures o.kind.Player? && o.alive ==>
      Updated(o).speed == Vec2(o.speed.x, o.speed.y + Gravity) &&
      Updated(o).kind == (if o.isOnGround then Player(Running, 0) else o.kind.(state := Jumping))
    ensures o.alive ==> !Updated(o).isOnGround && Updated(o).rotation == (if o.isOnGround then 0.0 else o.rotation + Spin)
  {
  }

  /** The collision response of `o` against `other`, which stays as it is. */
  function Collided(o: ObjectState, other: ObjectState): ObjectState
    requires !PlayerClash(o, other)
  {
    if !o.kind.Player? || !o.Hits(other) then o
    else
      match other.kind
      case Wall =>
        if Lands(o, other) then
          o.(speed := o.speed.(y := o.speed.y * 0.0),
             position := o.position.(y := other.position.y - o.size.y),
             isOnGround := true)
        else
          var pushed :=
            if o.position.x + o.size.x <= other.position.x then
              o.(speed := o.speed.(x := 0.0), position := o.position.(x := other.position.x - o.size.x))
            else if o.position.y >= other.position.y + other.size.y then
              o.(speed := o.speed.(y := 0.0), position := o.position.(y := other.position.y + other.size.y))
            else o;
          pushed.(alive := false)
      case Spike =>
        if TouchesSpike(o, other) then o.(speed := Zero, alive := false) else o
  }

  /** What a collision does to each field of the moving object. */
  lemma CollisionResponse(o: ObjectState, other: ObjectState)
    requires !PlayerClash(o, other)
    ensures Collided(o, other).kind == o.kind && Collided(o, other).size == o.size && Collided(o, other).trail == o.trail && Collided(o, other).rotation == o.rotation
    ensures !(o.kind.Player? && o.Hits(other)) ==> Collided(o, other) == o
    ensures Collided(o, other).alive == (o.alive && !Lethal(o, other))
    ensures o.kind.Player? && o.Hits(other) && other.kind.Wall? && Lands(o, other) ==>
      Collided(o, other).isOnGround && Collided(o, other).speed == o.speed.(y := 0.0) &&
      Collided(o, other).position == o.position.(y := other.position.y - o.size.y)
    ensures o.kind.Player? && o.Hits(other) && other.kind.Wall? && !Lands(o, other) ==>
      Collided(o, other).isOnGround == o.isOnGround &&
      if o.position.x + o.size.x <= other.position.x then
        Collided(o, other).speed == o.speed.(x := 0.0) && Collided(o, other).position == o.position.(x := other.position.x - o.size.x)
      else if o.position.y >= other.position.y + other.size.y then
        Collided(o, other).speed == o.speed.(y := 0.0) && Collided(o, other).position == o.position.(y := other.position.y + other.size.y)
      else
        Collided(o, other).speed == o.speed && Collided(o, other).position == o.position
    ensures other.kind.Spike? ==>
      Collided(o, other).position == o.position && Collided(o, other).isOnGround == o.isOnGround &&
      Collided(o, other).speed == (if Lethal(o, other) then Zero else o.speed)
  {
  }

  /** An object as the world stores it, changed in place by Update and Collide. */
  class Object {
    var position: Vec2
    var size: Vec2
    var speed: Vec2
    var kind: ObjectKind
    var isOnGround: bool
    var alive: bool
    var rotation: real
    var trail: seq<Vec2>

    /** The value held by this object. */
    function State(): ObjectState
      reads this
    {
      ObjectState(position, size, speed, kind, isOnGround, alive, rotation, trail)
    }

    /** Places an object value in its own storage. */
    constructor (o: ObjectState)
      ensures State() == o
    {
      position, size, speed, kind := o.position, o.size, o.speed, o.kind;
      isOnGround, alive, rotation, trail := o.isOnGround, o.alive, o.rotation, o.trail;
    }

    /** One tick of physics, with the jump input absent. */
    method Update()
      modifies this
      ensures State() == Updated(old(State()))
    {
      trail := trail + [State().Center()];
      if |trail| > TrailLength {
        trail := trail[1..];
      }

      position := position.Plus(speed);

      if !alive {
        if kind.Player? {
          speed := speed.(y := speed.y + Gravity);
          speed := speed.(x := speed.x * Damping);
          kind := kind.(state := Dying);
        }
      } else {
        if kind.Player? {
          speed := speed.(y := speed.y + Gravity);
          if isOnGround {
            kind := kind.(state := Running, jumpFrame := 0);
          } else {
            kind := kind.(state := Jumping);
          }
        }

        if !isOnGround {
          rotation := rotation + Spin;
        } else {
          rotation := 0.0;
        }

        isOnGround := false;
      }
    }

    /** The collision response against another object, which is only read. */
    method Collide(other: Object)
      requires other != this
      requires !PlayerClash(State(), other.State())
      modifies this
      ensures State() == Collided(old(State()), other.State())
    {
      if kind.Player? {
        var future := position.Plus(speed);
        if future.x < other.position.x + other.size.x
          && future.x + size.x > other.position.x
          && future.y < other.position.y + other.size.y
          && future.y + size.y > other.position.y
        {
          match other.kind {
            case Wall =>
              if position.y + size.y <= other.position.y {
                speed := speed.(y := speed.y * 0.0);
                position := position.(y := other.position.y - size.y);
                isOnGround := true;
              } else {
                if position.x + size.x <= other.position.x {
                  speed := speed.(x := 0.0);
                  position := position.(x := other.position.x - size.x);
                } else if position.y >= other.position.y + other.size.y {
                  speed := speed.(y := 0.0);
                  position := position.(y := other.position.y + other.size.y);
                }
                alive := false;
              }
            case Spike =>
              var f := State().WithPosition(future);
              if f.Contains(Apex(other.State())) || f.Contains(LeftBase(other.State()))
                || f.Contains(RightBase(other.State()))
              {
                speed := speed.(x := 0.0);
                speed := speed.(y := 0.0);
                alive := false;
              }
          }
        }
      }
    }
  }
}
