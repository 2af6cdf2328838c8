/** Decoded JSON and YAML values, as Go's `any` holds them, and paths into them. */
module Json {
  import opened Prelude

  datatype Value =
    | Null
    | Bool(b: bool)
    | Number(n: real)
    | Str(s: string)
    | Arr(items: seq<Value>)
    | Obj(fields: map<string, Value>)
  {
    /** Go's `m[key]` after a failed or successful assertion to a map: nil unless present. */
    function Get(key: string): Value {
      if Obj? && key in fields then fields[key] else Null
    }
  }

  datatype Step = Key(name: string) | Index(i: nat)

  /** The value reached from `v` by `path`, if the path exists. */
  function At(v: Value, path: seq<Step>): Option<Value>
    decreases |path|
  {
    if path == [] then Some(v)
    else
      match (path[0], v)
      case (Key(k), Obj(fields)) => if k in fields then At(fields[k], path[1..]) else None
      case (Index(i), Arr(items)) => if i < |items| then At(items[i], path[1..]) else None
      case _ => None
  }

  /** The greatest of `heights`; zero if there is none. */
  ghost function Greatest(heights: set<nat>): (h: nat)
    ensures h == 0 || h in heights
    ensures forall other | other in heights :: other <= h
  {
    if heights == {} then 0
    else
      var some :| some in heights;
      var rest := Greatest(heights - {some});
      assert forall other | other in heights :: other == some || other in heights - {some};
      if some < rest then rest else some
  }

  ghost function ChildHeights(v: Value): set<nat>
    decreases v, 0
  {
    match v
    case Obj(fields) => set k | k in fields :: Height(fields[k])
    case Arr(items) => set i | 0 <= i < |items| :: Height(items[i])
    case _ => {}
  }

  /** A scalar or an empty container has height 1; any other container is one higher than its highest
      child. */
  ghost function Height(v: Value): nat
    decreases v, 1
  {
    1 + Greatest(ChildHeights(v))
  }

  lemma ChildIsLower(v: Value, step: Step)
    requires At(v, [step]).Some?
    ensures Height(At(v, [step]).value) < Height(v)
  {
    assert [step][1..] == [];
    assert Height(At(v, [step]).value) in ChildHeights(v);
  }

  lemma HighestChild(v: Value) returns (step: Step)
    requires Height(v) > 1
    ensures At(v, [step]).Some? && Height(At(v, [step]).value) == Height(v) - 1
  {
    var h := Greatest(ChildHeights(v));
    assert h in ChildHeights(v);
    match v
    case Obj(fields) =>
      var k :| k in fields && Height(fields[k]) == h;
      step := Key(k);
    case Arr(items) =>
      var i: nat :| i < |items| && Height(items[i]) == h;
      step := Index(i);
  }

  lemma {:induction false} PathsAreShort(v: Value, p: seq<Step>)
    ensures At(v, p).Some? ==> |p| < Height(v)
    decreases |p|
  {
    if p != [] && At(v, p).Some? {
      AtCons(v, p[0], p[1..]);
      assert p == [p[0]] + p[1..];
      ChildIsLower(v, p[0]);
      PathsAreShort(At(v, [p[0]]).value, p[1..]);
    }
  }

  lemma {:induction false} LongestPath(v: Value) returns (p: seq<Step>)
    ensures At(v, p).Some? && |p| == Height(v) - 1
    decreases Height(v)
  {
    p := [];
    if Height(v) > 1 {
      var step := HighestChild(v);
      var rest := LongestPath(At(v, [step]).value);
      AtCons(v, step, rest);
      p := [step] + rest;
    }
  }

  /** A nonempty path goes through one child. */
  lemma AtCons(v: Value, step: Step, p: seq<Step>)
    ensures At(v, [step] + p) ==
            if At(v, [step]).Some? then At(At(v, [step]).value, p) else None
  {
    assert ([step] + p)[1..] == p && [step][1..] == [];
  }
}
