/**
 * The recursion examples of session1/example2.js: countdown, and deepPick,
 * which resolves a dot-separated path in a nested record one segment per call.
 */
module Recursion {
  import opened Wrappers
  import opened JsStrings

  // ------------------------------------------------------------------
  // countdown
  // ------------------------------------------------------------------

  /** One run of countdown: the values handed to fn, in order, and the value returned. */
  datatype Run = Run(calls: seq<int>, returned: int)

  /**
   * countdown(value, fn): calls fn(value), then counts down by one while the
   * value is positive; the callback fn is observed only through what it is called with.
   */
  function Countdown(value: int): (r: Run)
    ensures value >= 0 ==> |r.calls| == value + 1 && r.returned == 0
    ensures value >= 0 ==> forall i :: 0 <= i < |r.calls| ==> r.calls[i] == value - i
    ensures value < 0 ==> r == Run([value], value)
    decreases if value > 0 then value else 0
  {
    if value > 0 then
      var rest := Countdown(value - 1);
      Run([value] + rest.calls, rest.returned)
    else Run([value], value)
  }

  /** countdown(10, log) logs 10, 9, ..., 0 and returns 0. */
  lemma CountdownFromTen()
    ensures Countdown(10) == Run([10, 9, 8, 7, 6, 5, 4, 3, 2, 1, 0], 0)
  {
    var r := Countdown(10);
    assert r.calls == [10, 9, 8, 7, 6, 5, 4, 3, 2, 1, 0];
  }

  // ------------------------------------------------------------------
  // deepPick
  // ------------------------------------------------------------------

  /** A value in a nested record: a string, a number, or a record of named values. */
  datatype Node = Str(s: string) | Number(n: int) | Obj(fields: map<string, Node>)

  /**
   * object[key], where a missing object defaults to {} (the `object = {}`
   * parameter default). A missing key, or a key read from a scalar, is absent.
   */
  function Index(obj: Option<Node>, key: string): (r: Option<Node>)
    ensures r.Some? <==> obj.Some? && obj.value.Obj? && key in obj.value.fields
    ensures r.Some? ==> r.value == obj.value.fields[key]
  {
    match obj
    case Some(Obj(fields)) => if key in fields then Some(fields[key]) else None
    case _ => None
  }

  /**
   * deepPick(fields, object): split the path on ".", look up the first
   * segment, and recurse on the rest joined back with ".". A path with no
   * "." is one lookup, and nothing is found below a missing value or a
   * scalar, whatever the path.
   */
  function DeepPick(fields: string, obj: Option<Node>): (r: Option<Node>)
    ensures '.' !in fields ==> r == Index(obj, fields)
    ensures obj.None? || !obj.value.Obj? ==> r.None?
    decreases |Split(fields, '.')|
  {
    var parts := Split(fields, '.');
    SplitManyParts(fields, '.');
    if |parts| > 1 then
      var remaining := parts[1..];
      assert forall i :: 0 <= i < |remaining| ==> '.' !in remaining[i] by {
        assert forall i :: 0 <= i < |remaining| ==> remaining[i] == parts[i + 1];
      }
      SplitJoin(remaining, '.');
      DeepPick(Join(remaining, '.'), Index(obj, parts[0]))
    else
      Index(obj, parts[0])
  }

  /** Reference definition: follow a list of keys, one lookup per key. */
  function PickPath(path: seq<string>, obj: Option<Node>): Option<Node>
  {
    if path == [] then obj else PickPath(path[1..], Index(obj, path[0]))
  }

  /** deepPick is a walk along the segments of its path, in order. */
  lemma {:induction false} DeepPickFollowsPath(fields: string, obj: Option<Node>)
    ensures DeepPick(fields, obj) == PickPath(Split(fields, '.'), obj)
    decreases |Split(fields, '.')|
  {
    var parts := Split(fields, '.');
    if |parts| > 1 {
      var remaining := parts[1..];
      SplitJoin(remaining, '.');
      DeepPickFollowsPath(Join(remaining, '.'), Index(obj, parts[0]));
    } else {
      assert parts[1..] == [];
    }
  }

  /** Following p + q is following p, then q from where p ended. */
  lemma {:induction false} PickPathConcat(p: seq<string>, q: seq<string>, obj: Option<Node>)
    ensures PickPath(p + q, obj) == PickPath(q, PickPath(p, obj))
  {
    if p != [] {
      assert (p + q)[0] == p[0] && (p + q)[1..] == p[1..] + q;
      PickPathConcat(p[1..], q, Index(obj, p[0]));
    } else {
      assert p + q == q;
    }
  }

  /**
   * deepPick("a.b", o) is deepPick("b", deepPick("a", o)): the path is
   * resolved one prefix at a time, and each call has one segment fewer.
   */
  lemma DeepPickDescends(first: string, rest: string, obj: Option<Node>)
    ensures DeepPick(first + "." + rest, obj) == DeepPick(rest, DeepPick(first, obj))
    ensures |Split(first + "." + rest, '.')| > |Split(rest, '.')|
  {
    SplitAround(first, rest, '.');
    DeepPickFollowsPath(first + "." + rest, obj);
    DeepPickFollowsPath(first, obj);
    DeepPickFollowsPath(rest, DeepPick(first, obj));
    PickPathConcat(Split(first, '.'), Split(rest, '.'), obj);
  }

  /** The record `dan`, built from its nested parts. */
  function Dan(): Node
  {
    Obj(map["type" := Str("person"), "data" := DanData()])
  }

  function DanData(): Node
  {
    Obj(map["gender" := Str("male"), "info" := DanInfo()])
  }

  function DanInfo(): Node
  {
    Obj(map["id" := Number(22), "fullname" := DanFullname()])
  }

  function DanFullname(): Node
  {
    Obj(map["first" := Str("Dan"), "last" := Str("Deacon")])
  }

  /** deepPick("type", dan) is "person": one segment is one lookup. */
  lemma DeepPickDanType()
    ensures DeepPick("type", Some(Dan())) == Some(Str("person"))
  {
    assert '.' !in "type";
  }

  /** The path of the `dan` example, cut at its dots. */
  lemma DanPathSegments()
    ensures "data.info.fullname.first" == "data" + "." + "info.fullname.first"
    ensures "info.fullname.first" == "info" + "." + "fullname.first"
    ensures "fullname.first" == "fullname" + "." + "first"
  {
  }

  /** deepPick(key + "." + rest, o) is deepPick(rest, o[key]) when key holds no ".". */
  lemma DeepPickThroughKey(key: string, rest: string, fields: map<string, Node>)
    requires '.' !in key && key in fields
    ensures DeepPick(key + "." + rest, Some(Obj(fields))) == DeepPick(rest, Some(fields[key]))
  {
    DeepPickDescends(key, rest, Some(Obj(fields)));
  }

  /** deepPick("data.info.fullname.first", dan) is "Dan", one segment per call. */
  lemma DeepPickDanFirstName()
    ensures DeepPick("data.info.fullname.first", Some(Dan())) == Some(Str("Dan"))
  {
    DanPathSegments();
    assert '.' !in "first";
    DeepPickThroughKey("fullname", "first", DanInfo().fields);
    DeepPickThroughKey("info", "fullname.first", DanData().fields);
    DeepPickThroughKey("data", "info.fullname.first", Dan().fields);
  }

  /**
   * With object {a: {b: 1}}: "a" gives the inner record, "a.b" gives 1 and
   * "a.b.c" is absent (it would descend into the number 1).
   */
  lemma DeepPickStopsAtScalar()
    ensures var inner := Obj(map["b" := Number(1)]);
      var obj := Some(Obj(map["a" := inner]));
      && DeepPick("a", obj) == Some(inner)
      && DeepPick("a.b", obj) == Some(Number(1))
      && DeepPick("a.b.c", obj) == None
  {
    var inner := Obj(map["b" := Number(1)]);
    var obj := Some(Obj(map["a" := inner]));
    assert '.' !in "a" && '.' !in "b";
    assert "a.b" == "a" + "." + "b";
    DeepPickDescends("a", "b", obj);
    assert "a.b.c" == "a.b" + "." + "c";
    DeepPickDescends("a.b", "c", obj);
  }
}
