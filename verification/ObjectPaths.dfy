/** Object paths: `components_of` accepts exactly the paths that join back to what it answers. */
module ObjectPaths {
  import opened Machine
  import opened ObjectNames

  const SEPARATOR: u16 := 0x5c
  const MAX_COMPONENTS: nat := 32

  /** A run of text cut at every separator. */
  function Split(s: Text): (parts: seq<Text>)
    ensures parts != []
  {
    if s == [] then [[]]
    else
      var rest := Split(s[1..]);
      if s[0] == SEPARATOR then [[]] + rest else [[s[0]] + rest[0]] + rest[1..]
  }

  function Join(parts: seq<Text>): Text
    requires parts != []
  {
    if |parts| == 1 then parts[0] else parts[0] + [SEPARATOR] + Join(parts[1..])
  }

  function ComponentsOf(path: Text): Result<seq<Text>, ObjectError> {
    if path == [] || path[0] != SEPARATOR then Err(BadPath)
    else if path == [SEPARATOR] then Ok([])
    else
      var body := if path[|path| - 1] == SEPARATOR then path[..|path| - 1] else path;
      var parts := Split(body[1..]);
      if [] in parts || |parts| > MAX_COMPONENTS then Err(BadPath) else Ok(parts)
  }

  /** A name a directory could file something under. */
  predicate IsComponent(part: Text) { part != [] && SEPARATOR !in part }

  lemma {:induction false} SplitJoins(s: Text)
    ensures Join(Split(s)) == s
    ensures forall part :: part in Split(s) ==> SEPARATOR !in part
  {
    if s != [] {
      var rest := Split(s[1..]);
      SplitJoins(s[1..]);
      if s[0] == SEPARATOR {
        assert ([[]] + rest)[1..] == rest;
      } else {
        var parts := [[s[0]] + rest[0]] + rest[1..];
        assert parts[1..] == rest[1..];
        assert s == [s[0]] + s[1..];
      }
    }
  }

  lemma {:induction false} SplitAfter(part: Text, s: Text)
    requires SEPARATOR !in part
    ensures Split(part + [SEPARATOR] + s) == [part] + Split(s)
    ensures Split(part) == [part]
  {
    if part == [] {
      assert part + [SEPARATOR] + s == [SEPARATOR] + s;
      assert ([SEPARATOR] + s)[1..] == s;
    } else {
      SplitAfter(part[1..], s);
      var whole := part + [SEPARATOR] + s;
      assert whole[1..] == part[1..] + [SEPARATOR] + s;
      assert [part[0]] + part[1..] == part;
    }
  }

  lemma {:induction false} JoinSplits(parts: seq<Text>)
    requires parts != [] && forall part :: part in parts ==> SEPARATOR !in part
    ensures Split(Join(parts)) == parts
  {
    if |parts| == 1 {
      SplitAfter(parts[0], []);
    } else {
      JoinSplits(parts[1..]);
      SplitAfter(parts[0], Join(parts[1..]));
      assert parts == [parts[0]] + parts[1..];
    }
  }

  lemma {:induction false} JoinEnds(parts: seq<Text>)
    requires parts != [] && forall part :: part in parts ==> IsComponent(part)
    ensures Join(parts) != [] && Join(parts)[|Join(parts)| - 1] != SEPARATOR
  {
    assert IsComponent(parts[0]);
    if |parts| == 1 {
      assert parts[0][|parts[0]| - 1] in parts[0];
    } else {
      JoinEnds(parts[1..]);
    }
  }

  predicate AreComponents(parts: seq<Text>) {
    parts != [] && |parts| <= MAX_COMPONENTS && forall part :: part in parts ==> IsComponent(part)
  }

  lemma AcceptedIsJoined(path: Text, parts: seq<Text>)
    requires ComponentsOf(path) == Ok(parts) && parts != []
    ensures AreComponents(parts)
    ensures path == [SEPARATOR] + Join(parts) || path == [SEPARATOR] + Join(parts) + [SEPARATOR]
  {
    hide Split, Join;
    var body := if path[|path| - 1] == SEPARATOR then path[..|path| - 1] else path;
    SplitJoins(body[1..]);
    assert body == [SEPARATOR] + body[1..];
  }

  lemma JoinedIsAccepted(path: Text, parts: seq<Text>)
    requires AreComponents(parts)
    requires path == [SEPARATOR] + Join(parts) || path == [SEPARATOR] + Join(parts) + [SEPARATOR]
    ensures ComponentsOf(path) == Ok(parts)
  {
    hide Split, Join;
    var joined := [SEPARATOR] + Join(parts);
    JoinSplits(parts);
    JoinEnds(parts);
    assert joined[1..] == Join(parts);
    assert (joined + [SEPARATOR])[..|joined|] == joined;
  }

  /** The path spells these components: each behind a separator, with one more allowed at the end. */
  predicate Spells(path: Text, parts: seq<Text>) {
    if parts == [] then path == [SEPARATOR]
    else (
      && AreComponents(parts)
      && (path == [SEPARATOR] + Join(parts) || path == [SEPARATOR] + Join(parts) + [SEPARATOR])
    )
  }

  /** A path is accepted exactly when it spells its components. Nothing is dropped to make it so. */
  lemma PathsAreExact(path: Text, parts: seq<Text>)
    ensures ComponentsOf(path) == Ok(parts) <==> Spells(path, parts)
  {
    hide Join, AreComponents;
    if parts != [] && ComponentsOf(path) == Ok(parts) {
      AcceptedIsJoined(path, parts);
    } else if parts != [] && Spells(path, parts) {
      JoinedIsAccepted(path, parts);
    }
  }

  /** The directory a walk has reached, as a path: what `object_at` reports a missing name against. */
  function Walked(components: seq<Text>): Text {
    if components == [] then [SEPARATOR] else [SEPARATOR] + Join(components)
  }

  lemma {:induction false} JoinGrows(parts: seq<Text>, part: Text)
    requires parts != []
    ensures Join(parts + [part]) == Join(parts) + [SEPARATOR] + part
  {
    if |parts| > 1 {
      JoinGrows(parts[1..], part);
      assert (parts + [part])[1..] == parts[1..] + [part];
    }
  }

  /** Extending the reached path by one component, the way the walk's buffer does. */
  lemma WalkedGrows(components: seq<Text>, component: Text)
    requires components != [] ==> Join(components) != []
    ensures Walked(components + [component]) ==
      (if |Walked(components)| > 1 then Walked(components) + [SEPARATOR] else Walked(components)) + component
  {
    if components != [] {
      JoinGrows(components, component);
    }
  }
}
