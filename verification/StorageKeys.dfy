/** The storage-key layout shared by the count and transaction handlers, as a code that can be
    decoded: `/registry/[group/]resource/[namespace/]name`, with core groups left out. */
module StorageKeys {
  import opened GoStrings
  import opened ApiVersions

  const REGISTRY := "/registry/"

  /** Core groups share the key space `None`; every other group has one of its own. */
  function SpaceOf(core: set<string>, group: string): Option<string> {
    if group in core then None else Some(group)
  }

  /** Each segment followed by a slash. */
  function Slashed(segments: seq<string>): string {
    if segments == [] then "" else segments[0] + "/" + Slashed(segments[1..])
  }

  lemma {:induction false} SlashedSnoc(a: seq<string>, x: string)
    ensures Slashed(a + [x]) == Slashed(a) + x + "/"
  {
    if a == [] {
      assert a + [x] == [x];
    } else {
      SlashedSnoc(a[1..], x);
      assert (a + [x])[1..] == a[1..] + [x];
    }
  }

  function Segments(group: Option<string>, resource: string, namespace: string): seq<string> {
    (if group.Some? then [group.value] else []) + [resource] + (if namespace == "" then [] else [namespace])
  }

  /** The key prefix: the segments that are present, in order, each closed by a slash. */
  function KeyPrefix(core: set<string>, group: string, resource: string, clusterScoped: bool,
                     namespace: string): string {
    REGISTRY + Slashed(Segments(SpaceOf(core, group), resource, if clusterScoped then "" else namespace))
  }

  /** The handlers' set of core groups, filled entry by entry from the configured list. */
  method CoreResourceSet(coreResources: seq<string>) returns (core: set<string>)
    ensures forall g :: g in core <==> g in coreResources
  {
    core := {};
    for i := 0 to |coreResources|
      invariant forall g :: g in core <==> g in coreResources[..i]
    {
      core := core + {coreResources[i]};
    }
  }

  /** The encoder: a key grown by successive appends. */
  method EtcdKey(gvk: Gvk, namespace: string, resource: Option<Mapping>, core: set<string>)
    returns (r: Result<string, string>)
    ensures resource.None? <==> r.Err?
    ensures resource.Some? ==>
              r == Ok(KeyPrefix(core, gvk.group, resource.value.resource, resource.value.clusterScoped, namespace))
  {
    if resource.None? {
      return Err("resource mapping is required");
    }
    var key := REGISTRY;
    ghost var segments: seq<string> := [];
    if gvk.group !in core {
      key := key + gvk.group + "/";
      SlashedSnoc(segments, gvk.group);
      segments := segments + [gvk.group];
    }
    assert key == REGISTRY + Slashed(segments);
    key := key + resource.value.resource + "/";
    SlashedSnoc(segments, resource.value.resource);
    segments := segments + [resource.value.resource];
    assert key == REGISTRY + Slashed(segments);
    if !resource.value.clusterScoped && namespace != "" {
      key := key + namespace + "/";
      SlashedSnoc(segments, namespace);
      segments := segments + [namespace];
      assert key == REGISTRY + Slashed(segments);
    }
    assert segments == Segments(SpaceOf(core, gvk.group), resource.value.resource,
                                if resource.value.clusterScoped then "" else namespace);
    return Ok(key);
  }

  /** What one operation addresses, in the requester's terms. */
  datatype Identity = Identity(group: string, resource: string, clusterScoped: bool, namespace: string, name: string)

  /** Where an object lives: core groups share the key space `None`, cluster scope has no namespace. */
  datatype Slot = Slot(group: Option<string>, resource: string, namespace: string, name: string)

  function SlotOf(core: set<string>, id: Identity): Slot {
    Slot(SpaceOf(core, id.group), id.resource, if id.clusterScoped then "" else id.namespace, id.name)
  }

  function ObjectKey(core: set<string>, id: Identity): string {
    KeyPrefix(core, id.group, id.resource, id.clusterScoped, id.namespace) + id.name
  }

  function StagedKey(core: set<string>, id: Identity, operation: string): string {
    ObjectKey(core, id) + "#" + operation
  }

  /** What prefixes look like: the group unless it is a core group, the resource, and the namespace
      if there is one and the scope has namespaces. */
  lemma PrefixLayout(core: set<string>, group: string, resource: string, clusterScoped: bool, namespace: string)
    ensures KeyPrefix(core, group, resource, clusterScoped, namespace)
            == "/registry/" + (if group in core then "" else group + "/") + resource + "/"
               + (if clusterScoped || namespace == "" then "" else namespace + "/")
  {
    var ns := if clusterScoped then "" else namespace;
    SegmentsLayout(SpaceOf(core, group), resource, ns);
    Regroup("/registry/", if group in core then "" else group + "/", resource, "/", if ns == "" then "" else ns + "/");
  }

  lemma Regroup(a: string, b: string, c: string, d: string, e: string)
    ensures a + (b + c + d + e) == a + b + c + d + e
  {
  }

  /** And staged keys: the prefix, the name, and the operation after a `#`. */
  lemma KeyLayout(core: set<string>, id: Identity, operation: string)
    ensures StagedKey(core, id, operation)
            == "/registry/" + (if id.group in core then "" else id.group + "/") + id.resource + "/"
               + (if id.clusterScoped || id.namespace == "" then "" else id.namespace + "/")
               + id.name + "#" + operation
  {
    PrefixLayout(core, id.group, id.resource, id.clusterScoped, id.namespace);
  }

  lemma SegmentsLayout(group: Option<string>, resource: string, namespace: string)
    ensures Slashed(Segments(group, resource, namespace))
            == (if group.None? then "" else group.value + "/") + resource + "/"
               + (if namespace == "" then "" else namespace + "/")
  {
    SlashedSnoc([], resource);
    if group.Some? {
      SlashedSnoc([], group.value);
      SlashedSnoc([group.value], resource);
      assert [] + [group.value] == [group.value];
      if namespace != "" { SlashedSnoc([group.value] + [resource], namespace); }
      assert Segments(group, resource, namespace)
             == [group.value] + [resource] + (if namespace == "" then [] else [namespace]);
    } else {
      assert [] + [resource] == [resource];
      if namespace != "" { SlashedSnoc([resource], namespace); }
      assert Segments(group, resource, namespace) == [resource] + (if namespace == "" then [] else [namespace]);
    }
  }

  /** No segment holds a slash, and no group with a segment of its own is also the plural of a
      core resource. `groups` lists the groups that have a segment of their own. */
  predicate WellFormed(groups: set<string>, slot: Slot) {
    && '/' !in slot.resource && '/' !in slot.namespace && '/' !in slot.name
    && match slot.group
       case Some(g) => '/' !in g && g in groups
       case None => slot.resource !in groups
  }

  /** Identities without slashes, with a dot in every group that has a segment of its own and none in
      the plural, are always well formed. */
  lemma DottedGroupsAreWellFormed(core: set<string>, groups: set<string>, id: Identity)
    requires forall g | g in groups :: '.' in g
    requires SpaceOf(core, id.group) == None || id.group in groups
    requires '/' !in id.group && '/' !in id.resource && '/' !in id.namespace && '/' !in id.name && '.' !in id.resource
    ensures WellFormed(groups, SlotOf(core, id))
  {
  }

  function SlotKey(slot: Slot): string {
    REGISTRY + Slashed(Segments(slot.group, slot.resource, slot.namespace)) + slot.name
  }

  lemma ObjectKeyIsSlotKey(core: set<string>, id: Identity)
    ensures ObjectKey(core, id) == SlotKey(SlotOf(core, id))
  {
  }

  // ----- decoding -----

  function DecodeSlot(groups: set<string>, key: string): Option<Slot> {
    if !HasPrefix(key, REGISTRY) then None
    else
      var parts := Split(key[|REGISTRY|..], '/');
      var group := if parts[0] in groups then Some(parts[0]) else None;
      var rest := if group.Some? then parts[1..] else parts;
      if |rest| == 2 then Some(Slot(group, rest[0], "", rest[1]))
      else if |rest| == 3 && rest[1] != "" then Some(Slot(group, rest[0], rest[1], rest[2]))
      else None
  }

  lemma {:induction false} SlashedJoin(segments: seq<string>, name: string)
    ensures Slashed(segments) + name == Join(segments + [name], '/')
  {
    if segments == [] {
      assert segments + [name] == [name];
    } else {
      SlashedJoin(segments[1..], name);
      assert (segments + [name])[1..] == segments[1..] + [name];
      assert Slashed(segments) + name == segments[0] + "/" + (Slashed(segments[1..]) + name);
    }
  }

  /** The decoder inverts the encoder in both directions: it returns a slot exactly when that
      slot is well formed and has the given key. */
  lemma DecodeSlotExact(groups: set<string>, key: string, slot: Slot)
    ensures DecodeSlot(groups, key) == Some(slot) <==> WellFormed(groups, slot) && key == SlotKey(slot)
  {
    var segments := Segments(slot.group, slot.resource, slot.namespace);
    SlashedJoin(segments, slot.name);
    if WellFormed(groups, slot) && key == SlotKey(slot) {
      assert key[|REGISTRY|..] == Slashed(segments) + slot.name;
      SplitJoin(segments + [slot.name], '/');
    }
    if DecodeSlot(groups, key) == Some(slot) {
      var tail := key[|REGISTRY|..];
      var parts := Split(tail, '/');
      assert parts == segments + [slot.name];
      JoinSplit(tail, '/');
      assert key == REGISTRY + tail;
      assert SlotKey(slot) == REGISTRY + (Slashed(segments) + slot.name);
    }
  }

  lemma SlotKeyInjective(groups: set<string>, a: Slot, b: Slot)
    requires WellFormed(groups, a) && WellFormed(groups, b)
    ensures SlotKey(a) == SlotKey(b) <==> a == b
  {
    DecodeSlotExact(groups, SlotKey(a), a);
    DecodeSlotExact(groups, SlotKey(b), b);
  }

  /** Splits at the last separator. */
  function CutLast(s: string, sep: char): Option<(string, string)>
    decreases |s|
  {
    if s == "" then None
    else if s[|s| - 1] == sep then Some((s[..|s| - 1], ""))
    else match CutLast(s[..|s| - 1], sep)
      case None => None
      case Some(p) => Some((p.0, p.1 + [s[|s| - 1]]))
  }

  lemma {:induction false} CutLastExact(s: string, sep: char, head: string, tail: string)
    ensures CutLast(s, sep) == Some((head, tail)) <==> s == head + [sep] + tail && sep !in tail
    decreases |s|
  {
    if s != "" && s[|s| - 1] != sep {
      var init := s[..|s| - 1];
      if tail != "" {
        CutLastExact(init, sep, head, tail[..|tail| - 1]);
        assert tail == tail[..|tail| - 1] + [tail[|tail| - 1]];
        assert (head + [sep] + tail)[..|head + [sep] + tail| - 1] == head + [sep] + tail[..|tail| - 1];
        assert s == init + [s[|s| - 1]];
      } else {
        assert (head + [sep] + tail)[|head|] == sep;
        if CutLast(init, sep).Some? { assert |CutLast(s, sep).value.1| > 0; }
      }
    } else if s != "" {
      if s == head + [sep] + tail && sep !in tail {
        assert tail == "";
        assert s[..|s| - 1] == head;
      }
      if CutLast(s, sep) == Some((head, tail)) { assert s == head + [sep]; }
    }
  }

  /** Reads a staged key back: the operation follows the last `#`, so names may contain `#`. */
  function DecodeStaged(groups: set<string>, key: string): Option<(Slot, string)> {
    match CutLast(key, '#')
    case None => None
    case Some((objectKey, operation)) =>
      match DecodeSlot(groups, objectKey)
      case None => None
      case Some(slot) => Some((slot, operation))
  }

  /** A staged key decodes to the slot and operation it was built from. */
  lemma StagedRoundTrip(core: set<string>, groups: set<string>, id: Identity, operation: string)
    requires WellFormed(groups, SlotOf(core, id)) && '#' !in operation
    ensures DecodeStaged(groups, StagedKey(core, id, operation)) == Some((SlotOf(core, id), operation))
  {
    CutLastExact(StagedKey(core, id, operation), '#', ObjectKey(core, id), operation);
    ObjectKeyIsSlotKey(core, id);
    DecodeSlotExact(groups, ObjectKey(core, id), SlotOf(core, id));
  }

  /** Two staged keys are equal exactly when they name the same slot and operation. */
  lemma StagedKeyInjective(core: set<string>, groups: set<string>, a: Identity, opA: string, b: Identity, opB: string)
    requires WellFormed(groups, SlotOf(core, a)) && '#' !in opA
    requires WellFormed(groups, SlotOf(core, b)) && '#' !in opB
    ensures StagedKey(core, a, opA) == StagedKey(core, b, opB) <==> SlotOf(core, a) == SlotOf(core, b) && opA == opB
  {
    StagedRoundTrip(core, groups, a, opA);
    StagedRoundTrip(core, groups, b, opB);
    ObjectKeyIsSlotKey(core, a);
    ObjectKeyIsSlotKey(core, b);
  }

  /** Why a name must be slash-free: an operation without a namespace on the name `a/b` and one
      in namespace `a` on the name `b` share a key, whatever the kind. */
  lemma SlashInNameCollides(core: set<string>, group: string, resource: string, namespace: string, name: string)
    requires namespace != ""
    ensures var a := Identity(group, resource, false, "", namespace + "/" + name);
            var b := Identity(group, resource, false, namespace, name);
            SlotOf(core, a) != SlotOf(core, b) && ObjectKey(core, a) == ObjectKey(core, b)
  {
    SlashedSnoc(Segments(SpaceOf(core, group), resource, ""), namespace);
    assert Segments(SpaceOf(core, group), resource, "") + [namespace]
           == Segments(SpaceOf(core, group), resource, namespace);
  }

  /** Why groups and core plurals must differ: a cluster-scoped object of a group with its own
      segment against a namespaced object of a core resource whose plural is that group's name. */
  lemma GroupNamedLikeResourceCollides(core: set<string>, group: string, coreGroup: string, resource: string,
                                       name: string)
    requires group !in core && coreGroup in core && resource != ""
    ensures var a := Identity(group, resource, true, "", name);
            var b := Identity(coreGroup, group, false, resource, name);
            SlotOf(core, a) != SlotOf(core, b) && ObjectKey(core, a) == ObjectKey(core, b)
  {
    assert Segments(Some(group), resource, "") == Segments(None, group, resource);
  }

  // ----- prefixes -----

  lemma HeadSegment(x: string, u: string, y: string, v: string)
    requires '/' !in x && '/' !in y
    ensures x + "/" + u <= y + "/" + v <==> x == y && u <= v
  {
    var s, t := x + "/" + u, y + "/" + v;
    if s <= t {
      assert t[|x|] == '/' && s[|y|] == '/';
      assert forall i | 0 <= i < |x| :: s[i] == x[i];
      assert forall i | 0 <= i < |y| :: t[i] == y[i];
      assert x == s[..|x|] && y == t[..|x|];
      assert u == s[|x| + 1..] && v == t[|y| + 1..];
    }
    if x == y && u <= v {
      assert t[..|s|] == s;
    }
  }

  /** String prefixes of slash-terminated segments are exactly segment-list prefixes. */
  lemma {:induction false} SlashedPrefix(a: seq<string>, b: seq<string>, name: string)
    requires forall i | 0 <= i < |a| :: '/' !in a[i]
    requires forall i | 0 <= i < |b| :: '/' !in b[i]
    requires '/' !in name
    ensures Slashed(a) <= Slashed(b) + name <==> a <= b
  {
    if a == [] {
    } else if b == [] {
      assert Slashed(a)[|a[0]|] == '/';
      assert Slashed(b) + name == name;
    } else {
      SlashedPrefix(a[1..], b[1..], name);
      HeadSegment(a[0], Slashed(a[1..]), b[0], Slashed(b[1..]) + name);
      assert Slashed(b) + name == b[0] + "/" + (Slashed(b[1..]) + name);
      if a <= b { assert a[1..] <= b[1..]; }
      if a[0] == b[0] && a[1..] <= b[1..] {
        assert a == [a[0]] + a[1..] && b == [b[0]] + b[1..];
      }
    }
  }

  /** The objects a prefix is meant to select; an empty namespace selects all of them. */
  predicate Selects(group: Option<string>, resource: string, namespace: string, slot: Slot) {
    slot.group == group && slot.resource == resource && (namespace == "" || slot.namespace == namespace)
  }

  /** A well-formed key lies under a prefix exactly when the prefix is meant to select its object:
      namespace `a` never captures `ab`, one resource never captures another. */
  lemma PrefixSelectsExactly(core: set<string>, groups: set<string>, group: string, resource: string,
                             clusterScoped: bool, namespace: string, slot: Slot)
    requires WellFormed(groups, slot)
    requires WellFormed(groups, Slot(SpaceOf(core, group), resource, namespace, ""))
    ensures KeyPrefix(core, group, resource, clusterScoped, namespace) <= SlotKey(slot)
            <==> Selects(SpaceOf(core, group), resource, if clusterScoped then "" else namespace, slot)
  {
    var ns := if clusterScoped then "" else namespace;
    var a := Segments(SpaceOf(core, group), resource, ns);
    var b := Segments(slot.group, slot.resource, slot.namespace);
    SlashedPrefix(a, b, slot.name);
    var p, q := Slashed(a), Slashed(b) + slot.name;
    assert SlotKey(slot) == REGISTRY + q;
    assert REGISTRY + p <= REGISTRY + q <==> p <= q by {
      if REGISTRY + p <= REGISTRY + q {
        assert p == (REGISTRY + p)[|REGISTRY|..] && q == (REGISTRY + q)[|REGISTRY|..];
      }
    }
    SegmentsPrefix(groups, SpaceOf(core, group), resource, ns, slot);
  }

  lemma SegmentsPrefix(groups: set<string>, group: Option<string>, resource: string, namespace: string, slot: Slot)
    requires WellFormed(groups, slot) && WellFormed(groups, Slot(group, resource, namespace, ""))
    ensures Segments(group, resource, namespace) <= Segments(slot.group, slot.resource, slot.namespace)
            <==> Selects(group, resource, namespace, slot)
  {
    var a := Segments(group, resource, namespace);
    var b := Segments(slot.group, slot.resource, slot.namespace);
    if a <= b {
      assert a[0] == b[0];
      assert group == slot.group;
      if group.Some? { assert a[1] == b[1]; }
      if namespace != "" { assert a[|a| - 1] == b[|a| - 1]; }
    }
  }
}
