/** The collidable-object hierarchy of `CollisionDetector.hpp` and the process-wide state its
    constructors and destructors keep: one list of live objects per concrete kind and the
    spatial hash from cell keys to the objects registered in that cell. */
module Collision {
  import opened Sequences
  import opened Geometry

  /** The five concrete kinds, each with its own static list. */
  datatype Kind = CircleStatic | CircleDynamic | RectStatic | RectDynamic | LineStatic

  /** The kinds derived from `DynamicObject`. */
  predicate IsDynamic(k: Kind)
  {
    k == CircleDynamic || k == RectDynamic
  }

  /** The reaction to a hit. Only `STOP` is named by the header; the other values are kept
      abstract. */
  datatype Reaction = Stop | Other(code: int)

  /** The key type of `spacialHash`: a signed 64-bit cell identifier. */
  type CellKey = k: int | -0x8000_0000_0000_0000 <= k < 0x8000_0000_0000_0000

  /** An object of one of the five concrete kinds: the fields of `Object` and, for the
      dynamic kinds, of `DynamicObject`. */
  class CollidableObject {
    const kind: Kind
    var objectType: int
    var reaction: Reaction
    var speed: Point

    /** The base constructors: the type tag is given, the reaction starts as `STOP` and the
        speed as the zero vector. */
    constructor (kind: Kind, objectType: int)
      ensures this.kind == kind && this.objectType == objectType
      ensures reaction == Stop && speed == Origin
    {
      this.kind := kind;
      this.objectType := objectType;
      reaction := Stop;
      speed := Origin;
    }

    /** `setObjectType` replaces the type tag and nothing else. */
    method SetObjectType(objectType: int)
      modifies this
      ensures this.objectType == objectType
      ensures reaction == old(reaction) && speed == old(speed)
    {
      this.objectType := objectType;
    }

    /** `setReaction`, a member of the dynamic kinds only, replaces the reaction and nothing
        else. */
    method SetReaction(reaction: Reaction)
      requires IsDynamic(kind)
      modifies this
      ensures this.reaction == reaction
      ensures objectType == old(objectType) && speed == old(speed)
    {
      this.reaction := reaction;
    }

    /** The default `moove` hook asks to keep moving. */
    method Moove() returns (keepMoving: bool)
      requires IsDynamic(kind)
      ensures keepMoving
    {
      keepMoving := true;
    }

    /** The default `preCollisionUpdate` hook does nothing. */
    method PreCollisionUpdate()
      requires IsDynamic(kind)
      ensures unchanged(this)
    {
    }

    /** The default `postCollisionUpdate` hook does nothing. */
    method PostCollisionUpdate()
      requires IsDynamic(kind)
      ensures unchanged(this)
    {
    }

    /** The default `hit` hook does nothing. */
    method Hit(objectType: int, other: CollidableObject)
      ensures unchanged(this, other)
    {
    }
  }

  /** The five kind lists as one value. */
  datatype KindLists = KindLists(
    circleStatic: seq<CollidableObject>,
    circleDynamic: seq<CollidableObject>,
    rectStatic: seq<CollidableObject>,
    rectDynamic: seq<CollidableObject>,
    lineStatic: seq<CollidableObject>)
  {
    /** The list of kind `k`. */
    function Get(k: Kind): seq<CollidableObject>
    {
      match k
      case CircleStatic => circleStatic
      case CircleDynamic => circleDynamic
      case RectStatic => rectStatic
      case RectDynamic => rectDynamic
      case LineStatic => lineStatic
    }

    /** The lists with that of kind `k` replaced by `s` and the other four kept. */
    function Set(k: Kind, s: seq<CollidableObject>): (r: KindLists)
      ensures r.Get(k) == s
      ensures forall k' :: k' != k ==> r.Get(k') == Get(k')
    {
      match k
      case CircleStatic => this.(circleStatic := s)
      case CircleDynamic => this.(circleDynamic := s)
      case RectStatic => this.(rectStatic := s)
      case RectDynamic => this.(rectDynamic := s)
      case LineStatic => this.(lineStatic := s)
    }
  }

  /** Each list holds objects of its own kind that are not destroyed, each once. */
  ghost predicate ListsOk(ls: KindLists, destroyed: set<CollidableObject>)
  {
    forall k: Kind :: Distinct(ls.Get(k)) && forall o :: o in ls.Get(k) ==> o.kind == k && o !in destroyed
  }

  /** Each bucket holds registered objects, each once. */
  ghost predicate BucketsOk(h: map<CellKey, seq<CollidableObject>>, ls: KindLists)
  {
    forall key :: key in h ==> Distinct(h[key]) && forall o :: o in h[key] ==> o in ls.Get(o.kind)
  }

  /** Appends `o` to the bucket of every key in `cells`, creating the buckets that do not
      exist yet. */
  function AddToBuckets(h: map<CellKey, seq<CollidableObject>>, cells: set<CellKey>, o: CollidableObject): (r: map<CellKey, seq<CollidableObject>>)
    ensures r.Keys == h.Keys + cells
    ensures forall key :: key in cells ==> |r[key]| > 0 && r[key][|r[key]| - 1] == o
    ensures forall key :: key in cells && key in h ==> r[key][..|r[key]| - 1] == h[key]
    ensures forall key :: key in h && key !in cells ==> r[key] == h[key]
  {
    map key | key in h.Keys + cells :: if key in cells then (if key in h then h[key] else []) + [o] else h[key]
  }

  /** Takes `o` out of every bucket. */
  function RemoveFromBuckets(h: map<CellKey, seq<CollidableObject>>, o: CollidableObject): (r: map<CellKey, seq<CollidableObject>>)
    ensures r.Keys == h.Keys
  {
    map key | key in h :: RemoveFirst(h[key], o)
  }

  /** Registering a live object that is not yet registered keeps the lists and the buckets
      consistent. */
  lemma EnablePreserves(ls: KindLists, h: map<CellKey, seq<CollidableObject>>, destroyed: set<CollidableObject>, o: CollidableObject, cells: set<CellKey>)
    requires ListsOk(ls, destroyed) && BucketsOk(h, ls)
    requires o !in ls.Get(o.kind) && o !in destroyed
    ensures var ls' := ls.Set(o.kind, ls.Get(o.kind) + [o]);
      ListsOk(ls', destroyed) && BucketsOk(AddToBuckets(h, cells, o), ls')
  {
    var ls' := ls.Set(o.kind, ls.Get(o.kind) + [o]);
    DistinctAppend(ls.Get(o.kind), o);
    forall k: Kind
      ensures Distinct(ls'.Get(k)) && forall p :: p in ls'.Get(k) ==> p.kind == k && p !in destroyed
    {
    }
    var h' := AddToBuckets(h, cells, o);
    forall key | key in h'
      ensures Distinct(h'[key]) && forall p: CollidableObject :: p in h'[key] ==> p in ls'.Get(p.kind)
    {
      var before := if key in h then h[key] else [];
      if key in cells {
        assert o !in before;
        DistinctAppend(before, o);
      }
      forall p: CollidableObject | p in before
        ensures p in ls'.Get(p.kind)
      {
        assert p in ls.Get(p.kind);
      }
    }
  }

  /** Unregistering an object keeps the lists and the buckets consistent and leaves the
      object in neither. */
  lemma DisablePreserves(ls: KindLists, h: map<CellKey, seq<CollidableObject>>, destroyed: set<CollidableObject>, o: CollidableObject)
    requires ListsOk(ls, destroyed) && BucketsOk(h, ls)
    ensures var ls' := ls.Set(o.kind, RemoveFirst(ls.Get(o.kind), o));
      && ListsOk(ls', destroyed) && BucketsOk(RemoveFromBuckets(h, o), ls')
      && (forall k: Kind :: o !in ls'.Get(k))
      && (forall key :: key in h ==> o !in RemoveFromBuckets(h, o)[key])
  {
    var ls' := ls.Set(o.kind, RemoveFirst(ls.Get(o.kind), o));
    RemoveFirstDistinct(ls.Get(o.kind), o);
    forall k: Kind
      ensures Distinct(ls'.Get(k)) && forall p :: p in ls'.Get(k) ==> p.kind == k && p !in destroyed
      ensures o !in ls'.Get(k)
    {
    }
    var h' := RemoveFromBuckets(h, o);
    forall key | key in h'
      ensures Distinct(h'[key]) && o !in h'[key]
      ensures forall p: CollidableObject :: p in h'[key] ==> p in ls'.Get(p.kind)
    {
      RemoveFirstDistinct(h[key], o);
      forall p: CollidableObject | p in h'[key]
        ensures p in ls'.Get(p.kind)
      {
        assert p in h[key] && p != o;
        assert p in ls.Get(p.kind);
      }
    }
  }

  /** Marking an unregistered object destroyed keeps the lists consistent. */
  lemma DestroyPreserves(ls: KindLists, destroyed: set<CollidableObject>, o: CollidableObject)
    requires ListsOk(ls, destroyed) && forall k: Kind :: o !in ls.Get(k)
    ensures ListsOk(ls, destroyed + {o})
  {
  }

  /** The static members of `CollisionDetector`: the five kind lists and the spatial hash,
      shared by every detector. */
  class Registry {
    var circleStaticList: seq<CollidableObject>
    var circleDynamicList: seq<CollidableObject>
    var rectStaticList: seq<CollidableObject>
    var rectDynamicList: seq<CollidableObject>
    var lineStaticList: seq<CollidableObject>
    var spacialHash: map<CellKey, seq<CollidableObject>>
    /** The objects whose destructor has run. */
    ghost var destroyed: set<CollidableObject>

    /** The five lists. */
    function Lists(): KindLists
      reads this
    {
      KindLists(circleStaticList, circleDynamicList, rectStaticList, rectDynamicList, lineStaticList)
    }

    /** The list a kind registers in. */
    function List(k: Kind): seq<CollidableObject>
      reads this
    {
      Lists().Get(k)
    }

    /** `o` is in the list of its own kind. */
    predicate Registered(o: CollidableObject)
      reads this
    {
      o in List(o.kind)
    }

    ghost predicate Valid()
      reads this
    {
      ListsOk(Lists(), destroyed) && BucketsOk(spacialHash, Lists())
    }

    /** The static lists and the hash start empty. */
    constructor ()
      ensures Valid()
      ensures forall k: Kind :: List(k) == []
      ensures spacialHash == map[] && destroyed == {}
    {
      circleStaticList, circleDynamicList, rectStaticList := [], [], [];
      rectDynamicList, lineStaticList := [], [];
      spacialHash := map[];
      destroyed := {};
    }

    /** Replaces the list of kind `k` and no other. */
    method SetList(k: Kind, s: seq<CollidableObject>)
      modifies this
      ensures Lists() == old(Lists()).Set(k, s)
      ensures spacialHash == old(spacialHash) && destroyed == old(destroyed)
    {
      match k
      case CircleStatic => circleStaticList := s;
      case CircleDynamic => circleDynamicList := s;
      case RectStatic => rectStaticList := s;
      case RectDynamic => rectDynamicList := s;
      case LineStatic => lineStaticList := s;
    }

    /** `enableCollision`: appends the object to its kind's list and to the bucket of each
        cell it covers. Which cells an object covers is computed by code that is not part of
        this model, so they are a parameter. */
    method EnableCollision(o: CollidableObject, cells: set<CellKey>)
      requires Valid() && !Registered(o) && o !in destroyed
      modifies this
      ensures Valid()
      ensures List(o.kind) == old(List(o.kind)) + [o]
      ensures forall k :: k != o.kind ==> List(k) == old(List(k))
      ensures spacialHash == AddToBuckets(old(spacialHash), cells, o)
      ensures destroyed == old(destroyed)
    {
      EnablePreserves(Lists(), spacialHash, destroyed, o, cells);
      SetList(o.kind, List(o.kind) + [o]);
      spacialHash := AddToBuckets(spacialHash, cells, o);
    }

    /** `disableCollision`: takes the object out of its kind's list and out of every
        bucket. */
    method DisableCollision(o: CollidableObject)
      requires Valid()
      modifies this
      ensures Valid() && forall k: Kind :: o !in List(k)
      ensures List(o.kind) == RemoveFirst(old(List(o.kind)), o)
      ensures forall k :: k != o.kind ==> List(k) == old(List(k))
      ensures spacialHash == RemoveFromBuckets(old(spacialHash), o)
      ensures destroyed == old(destroyed)
    {
      DisablePreserves(Lists(), spacialHash, destroyed, o);
      SetList(o.kind, RemoveFirst(List(o.kind), o));
      spacialHash := RemoveFromBuckets(spacialHash, o);
    }

    /** The constructor of a concrete kind: builds the object and registers it. */
    method Construct(kind: Kind, objectType: int, cells: set<CellKey>) returns (o: CollidableObject)
      requires Valid()
      modifies this
      ensures fresh(o) && o.kind == kind && o.objectType == objectType
      ensures o.reaction == Stop && o.speed == Origin
      ensures Valid() && Registered(o)
      ensures List(kind) == old(List(kind)) + [o]
      ensures forall k :: k != kind ==> List(k) == old(List(k))
      ensures spacialHash == AddToBuckets(old(spacialHash), cells, o)
      ensures destroyed == old(destroyed)
    {
      o := new CollidableObject(kind, objectType);
      EnableCollision(o, cells);
    }

    /** The destructor of a concrete kind: unregisters the object, which is never registered
        again. */
    method Destruct(o: CollidableObject)
      requires Valid() && Registered(o)
      modifies this
      ensures Valid() && !Registered(o) && destroyed == old(destroyed) + {o}
      ensures List(o.kind) == RemoveFirst(old(List(o.kind)), o)
      ensures forall k :: k != o.kind ==> List(k) == old(List(k))
      ensures spacialHash == RemoveFromBuckets(old(spacialHash), o)
    {
      DisableCollision(o);
      DestroyPreserves(Lists(), destroyed, o);
      destroyed := destroyed + {o};
    }
  }

  /** A live object is registered exactly once: it occurs once in its own list and in no
      other list. */
  lemma RegisteredOnce(r: Registry, o: CollidableObject)
    requires r.Valid() && r.Registered(o)
    ensures multiset(r.List(o.kind))[o] == 1
    ensures forall k: Kind :: o in r.List(k) <==> k == o.kind
  {
    DistinctCount(r.List(o.kind), o);
  }

  /** A destroyed object is in no list and no bucket. */
  lemma DestroyedNowhere(r: Registry, o: CollidableObject)
    requires r.Valid() && o in r.destroyed
    ensures forall k: Kind :: o !in r.List(k)
    ensures forall key :: key in r.spacialHash ==> o !in r.spacialHash[key]
  {
  }

  /** Registering and then unregistering an object restores its kind's list and the buckets
      that existed; the buckets created for it are left empty. */
  lemma EnableThenDisable(s: seq<CollidableObject>, h: map<CellKey, seq<CollidableObject>>, cells: set<CellKey>, o: CollidableObject)
    requires o !in s
    requires forall key :: key in h ==> o !in h[key]
    ensures RemoveFirst(s + [o], o) == s
    ensures var h' := RemoveFromBuckets(AddToBuckets(h, cells, o), o);
      h'.Keys == h.Keys + cells && (forall key :: key in h ==> h'[key] == h[key])
      && (forall key :: key in cells - h.Keys ==> h'[key] == [])
  {
    AppendThenRemove(s, o);
    var added := AddToBuckets(h, cells, o);
    forall key | key in h
      ensures RemoveFromBuckets(added, o)[key] == h[key]
    {
      if key in cells {
        AppendThenRemove(h[key], o);
      } else {
        RemoveFirstAbsent(h[key], o);
      }
    }
    forall key | key in cells - h.Keys
      ensures RemoveFromBuckets(added, o)[key] == []
    {
      AppendThenRemove([], o);
    }
  }

  /** A collision detector: the flag that pauses the simulation, and the registry. In the
      source the lists and the hash are static members that every detector shares; here each
      detector refers to a registry, and nothing forces two detectors to refer to the same
      one. */
  class CollisionDetector {
    const registry: Registry
    var timeFlow: real
    var timeStoped: bool

    /** A detector starts unpaused. */
    constructor (registry: Registry)
      ensures this.registry == registry && !timeStoped
    {
      this.registry := registry;
      timeFlow := 0.0;
      timeStoped := false;
    }

    /** `pause`: stops time; nothing else changes. */
    method Pause()
      modifies this
      ensures timeStoped && timeFlow == old(timeFlow)
    {
      timeStoped := true;
    }

    /** `unpause`: lets time run again; nothing else changes. */
    method Unpause()
      modifies this
      ensures !timeStoped && timeFlow == old(timeFlow)
    {
      timeStoped := false;
    }
  }
}
