/** API paths: printing the path of a resource, finding the namespace in a path, and resolving
    the namespace of a request. */
module RequestPaths {
  import opened GoStrings
  import opened ApiVersions

  const CREATE := "create"
  const UPDATE := "update"
  const DELETE := "delete"

  predicate IsSlash(c: char) { c == '/' }

  /** The segment after the first `namespaces` segment that is followed by a non-empty one. */
  function NamespaceIn(parts: seq<string>): string {
    if |parts| < 2 then ""
    else if parts[0] == "namespaces" && parts[1] != "" then parts[1]
    else NamespaceIn(parts[1..])
  }

  function RequestNamespace(path: string): string {
    NamespaceIn(Split(Trim(path, IsSlash), '/'))
  }

  method TransactionRequestNamespace(path: string) returns (ns: string)
    ensures ns == RequestNamespace(path)
  {
    var parts := Split(Trim(path, IsSlash), '/');
    var i := 0;
    while i < |parts| - 1
      invariant 0 <= i <= |parts|
      invariant NamespaceIn(parts[i..]) == NamespaceIn(parts)
    {
      if parts[i] == "namespaces" && parts[i + 1] != "" {
        return parts[i + 1];
      }
      assert parts[i..][1..] == parts[i + 1..];
      i := i + 1;
    }
    return "";
  }

  /** The scan reports exactly the first qualifying position. */
  lemma {:induction false} NamespaceInFirst(parts: seq<string>, i: nat)
    requires i + 1 < |parts| && parts[i] == "namespaces" && parts[i + 1] != ""
    requires forall j | 0 <= j < i :: !(parts[j] == "namespaces" && parts[j + 1] != "")
    ensures NamespaceIn(parts) == parts[i + 1]
  {
    if i > 0 {
      assert !(parts[0] == "namespaces" && parts[0 + 1] != "");
      forall j | 0 <= j < i - 1 ensures !(parts[1..][j] == "namespaces" && parts[1..][j + 1] != "") {
        assert parts[1..][j] == parts[j + 1] && parts[1..][j + 1] == parts[j + 1 + 1];
      }
      NamespaceInFirst(parts[1..], i - 1);
    }
  }

  function VersionSegments(m: Mapping): seq<string> {
    if m.group == "" then ["api", m.version] else ["apis", m.group, m.version]
  }

  function ScopedSegments(m: Mapping, namespace: string): seq<string> {
    if m.clusterScoped then VersionSegments(m) else VersionSegments(m) + ["namespaces"] + [namespace]
  }

  /** The segments of the API path of a resource. */
  function PathSegments(m: Mapping, namespace: string, operation: string, name: string): seq<string> {
    if operation == UPDATE then ScopedSegments(m, namespace) + [m.resource] + [name]
    else ScopedSegments(m, namespace) + [m.resource]
  }

  /** A path: every segment after a slash. */
  function Printed(segments: seq<string>): string {
    "/" + Join(segments, '/')
  }

  lemma {:induction false} JoinSnoc(parts: seq<string>, last: string)
    requires parts != []
    ensures Join(parts + [last], '/') == Join(parts, '/') + "/" + last
  {
    if |parts| > 1 {
      JoinSnoc(parts[1..], last);
      assert (parts + [last])[1..] == parts[1..] + [last];
    } else {
      assert (parts + [last])[1..] == [last];
    }
  }

  lemma PrintedSnoc(segments: seq<string>, last: string)
    requires segments != []
    ensures Printed(segments + [last]) == Printed(segments) + "/" + last
  {
    JoinSnoc(segments, last);
  }

  datatype PathError = NoMapping | MissingName | MissingNamespace

  /** The path of a resource, or why it has none. */
  function ApiPath(resource: Option<Mapping>, namespace: string, operation: string, name: string)
    : Result<string, PathError>
  {
    if resource.None? then Err(NoMapping)
    else if operation == UPDATE && name == "" then Err(MissingName)
    else if !resource.value.clusterScoped && namespace == "" then Err(MissingNamespace)
    else Ok(Printed(PathSegments(resource.value, namespace, operation, name)))
  }

  method ResourceApiPath(resource: Option<Mapping>, namespace: string, operation: string, name: string)
    returns (r: Result<string, PathError>)
    ensures r == ApiPath(resource, namespace, operation, name)
  {
    if resource.None? { return Err(NoMapping); }
    var m := resource.value;
    if operation == UPDATE && name == "" { return Err(MissingName); }
    var apiPath := "/api/" + m.version;
    if m.group != "" {
      apiPath := "/apis/" + m.group + "/" + m.version;
    }
    VersionPath(m);
    if !m.clusterScoped {
      if namespace == "" { return Err(MissingNamespace); }
      ScopePath(m, namespace);
      apiPath := apiPath + "/namespaces/" + namespace;
    }
    assert apiPath == Printed(ScopedSegments(m, namespace));
    apiPath := apiPath + "/" + m.resource;
    PrintedSnoc(ScopedSegments(m, namespace), m.resource);
    assert apiPath == Printed(ScopedSegments(m, namespace) + [m.resource]);
    if operation == UPDATE {
      PrintedSnoc(ScopedSegments(m, namespace) + [m.resource], name);
      apiPath := apiPath + "/" + name;
    }
    return Ok(apiPath);
  }

  /** What a path looks like, and when there is none. */
  lemma ApiPathExactly(m: Mapping, namespace: string, operation: string, name: string, path: string)
    ensures ApiPath(None, namespace, operation, name) == Err(NoMapping)
    ensures ApiPath(Some(m), namespace, operation, name) == Ok(path)
            <==> && (operation == "update" ==> name != "") && (!m.clusterScoped ==> namespace != "")
                 && path == (if m.group == "" then "/api/" else "/apis/" + m.group + "/") + m.version
                            + (if m.clusterScoped then "" else "/namespaces/" + namespace)
                            + "/" + m.resource + (if operation == "update" then "/" + name else "")
  {
    var scoped := ScopedSegments(m, namespace);
    var base := (if m.group == "" then "/api/" else "/apis/" + m.group + "/") + m.version;
    VersionPath(m);
    assert Printed(VersionSegments(m)) == base;
    if !m.clusterScoped {
      ScopePath(m, namespace);
      assert Printed(scoped) == base + ("/namespaces/" + namespace);
    } else {
      assert Printed(scoped) == base + "";
    }
    PrintedSnoc(scoped, m.resource);
    PrintedSnoc(scoped + [m.resource], name);
    var listed := Printed(scoped) + "/" + m.resource;
    if operation == "update" {
      assert Printed(PathSegments(m, namespace, operation, name)) == listed + ("/" + name);
    } else {
      assert Printed(PathSegments(m, namespace, operation, name)) == listed + "";
    }
  }

  lemma VersionPath(m: Mapping)
    ensures Printed(VersionSegments(m))
            == if m.group == "" then "/api/" + m.version else "/apis/" + m.group + "/" + m.version
  {
    if m.group == "" {
      PrintedSnoc(["api"], m.version);
      assert ["api"] + [m.version] == VersionSegments(m);
    } else {
      PrintedSnoc(["apis"], m.group);
      PrintedSnoc(["apis"] + [m.group], m.version);
      assert ["apis"] + [m.group] + [m.version] == VersionSegments(m);
    }
  }

  lemma ScopePath(m: Mapping, namespace: string)
    requires !m.clusterScoped
    ensures Printed(ScopedSegments(m, namespace)) == Printed(VersionSegments(m)) + "/namespaces/" + namespace
  {
    var base := Printed(VersionSegments(m));
    PrintedSnoc(VersionSegments(m), "namespaces");
    PrintedSnoc(VersionSegments(m) + ["namespaces"], namespace);
    assert "/" + "namespaces" + "/" == "/namespaces/";
    assert base + "/" + "namespaces" + "/" + namespace == base + ("/" + "namespaces" + "/") + namespace;
  }

  predicate Segment(s: string) { s != "" && '/' !in s }

  predicate PrintableMapping(m: Mapping, namespace: string, operation: string, name: string) {
    && Segment(m.version) && Segment(m.resource) && '/' !in m.group
    && (!m.clusterScoped ==> Segment(namespace))
    && (operation == UPDATE ==> Segment(name))
  }

  lemma {:induction false} JoinEnds(parts: seq<string>)
    requires parts != [] && forall i | 0 <= i < |parts| :: Segment(parts[i])
    ensures var s := Join(parts, '/'); s != "" && s[0] != '/' && s[|s| - 1] != '/'
  {
    if |parts| > 1 {
      JoinEnds(parts[1..]);
      var s, t := Join(parts, '/'), Join(parts[1..], '/');
      assert s[|s| - 1] == t[|t| - 1];
    }
  }

  lemma TrimLeadingSlash(s: string)
    requires s != "" && s[0] != '/' && s[|s| - 1] != '/'
    ensures Trim("/" + s, IsSlash) == s
  {
    assert ("/" + s)[1..] == s;
    assert TrimLeft("/" + s, IsSlash) == TrimLeft(s, IsSlash) == s;
  }

  /** Trimming and splitting a printed path gives its segments back. */
  lemma PathSplits(parts: seq<string>)
    requires parts != [] && forall i | 0 <= i < |parts| :: Segment(parts[i])
    ensures Split(Trim(Printed(parts), IsSlash), '/') == parts
  {
    JoinEnds(parts);
    TrimLeadingSlash(Join(parts, '/'));
    SplitJoin(parts, '/');
  }

  /** What the scanner finds among the segments of a path, in every case. For a namespaced
      resource it is the namespace unless the group or version is itself called `namespaces`;
      for a cluster-scoped one it is empty, except for updates of the resource `namespaces`. */
  function ScanResult(m: Mapping, namespace: string, operation: string, name: string): string {
    if m.group == "namespaces" then m.version
    else if m.version == "namespaces" then (if m.clusterScoped then m.resource else "namespaces")
    else if !m.clusterScoped then namespace
    else if m.resource == "namespaces" && operation == UPDATE then name
    else ""
  }

  lemma ScanSegments(m: Mapping, namespace: string, operation: string, name: string)
    requires PrintableMapping(m, namespace, operation, name)
    ensures NamespaceIn(PathSegments(m, namespace, operation, name)) == ScanResult(m, namespace, operation, name)
  {
    var parts := PathSegments(m, namespace, operation, name);
    var g := if m.group == "" then 0 else 1;
    if m.group == "namespaces" {
      NamespaceInFirst(parts, 1);
    } else if m.version == "namespaces" {
      NamespaceInFirst(parts, g + 1);
    } else if !m.clusterScoped {
      NamespaceInFirst(parts, g + 2);
    } else if m.resource == "namespaces" && operation == UPDATE {
      NamespaceInFirst(parts, g + 2);
    } else {
      NamespaceInNone(parts);
    }
  }

  /** Scanning the printed path of any resource. */
  lemma ScanPrintedPath(m: Mapping, namespace: string, operation: string, name: string)
    requires PrintableMapping(m, namespace, operation, name)
    ensures RequestNamespace(Printed(PathSegments(m, namespace, operation, name)))
            == ScanResult(m, namespace, operation, name)
  {
    PathSplits(PathSegments(m, namespace, operation, name));
    ScanSegments(m, namespace, operation, name);
  }

  lemma {:induction false} NamespaceInNone(parts: seq<string>)
    requires forall j | 0 <= j < |parts| - 1 :: parts[j] != "namespaces"
    ensures NamespaceIn(parts) == ""
  {
    if |parts| >= 2 {
      NamespaceInNone(parts[1..]);
    }
  }

  /** The round trip holds exactly when neither the group nor the version shadows the namespace. */
  lemma NamespaceRoundTrip(m: Mapping, namespace: string, operation: string, name: string)
    requires PrintableMapping(m, namespace, operation, name) && !m.clusterScoped
    ensures RequestNamespace(Printed(PathSegments(m, namespace, operation, name))) == namespace
            <==> (m.group == "namespaces" ==> m.version == namespace)
                 && (m.version == "namespaces" ==> namespace == "namespaces")
  {
    ScanPrintedPath(m, namespace, operation, name);
  }

  // ----- resolving the namespace of a request -----

  /** The namespace given by the framework, else the one in the path, else the body's. */
  function PathOrHandler(handlerNs: string, path: string): string {
    if handlerNs != "" then handlerNs else RequestNamespace(path)
  }

  /** `None` when the body contradicts the request. */
  function Resolve(handlerNs: string, path: string, bodyNs: string): Option<string> {
    var ns := PathOrHandler(handlerNs, path);
    if bodyNs != "" && ns != "" && bodyNs != ns then None
    else Some(if ns == "" then bodyNs else ns)
  }

  /** The namespace a request is for: the framework's, else the path's, and the body may repeat it;
      with neither, the body's. */
  ghost predicate IsFor(handlerNs: string, pathNs: string, bodyNs: string, ns: string) {
    || (handlerNs != "" && ns == handlerNs && bodyNs in {"", handlerNs})
    || (handlerNs == "" && pathNs != "" && ns == pathNs && bodyNs in {"", pathNs})
    || (handlerNs == "" && pathNs == "" && ns == bodyNs)
  }

  /** A request is resolved to the one namespace it is for, and refused exactly when the body names
      another than framework or path give. */
  lemma ResolveExactly(handlerNs: string, path: string, bodyNs: string, ns: string)
    ensures Resolve(handlerNs, path, bodyNs) == Some(ns) <==> IsFor(handlerNs, RequestNamespace(path), bodyNs, ns)
    ensures Resolve(handlerNs, path, bodyNs) == None
            <==> && bodyNs != "" && (handlerNs != "" ==> bodyNs != handlerNs)
                 && (handlerNs == "" ==> RequestNamespace(path) !in {"", bodyNs})
  {
  }

  lemma {:induction false} NamespaceInPicks(parts: seq<string>)
    ensures NamespaceIn(parts) == "" || NamespaceIn(parts) in parts
  {
    if |parts| >= 2 { NamespaceInPicks(parts[1..]); }
  }

  /** Neither a path nor a well-formed handler namespace brings a slash into a resolved namespace:
      it has one exactly when neither of them gives a namespace and the body's has a slash. */
  lemma SlashComesFromBody(handlerNs: string, path: string, bodyNs: string)
    requires '/' !in handlerNs
    ensures '/' !in RequestNamespace(path)
    ensures var r := Resolve(handlerNs, path, bodyNs);
            && (r.Some? && '/' in r.value <==> handlerNs == "" && RequestNamespace(path) == "" && '/' in bodyNs)
            && (r.Some? && '/' in r.value ==> r.value == bodyNs)
  {
    NamespaceInPicks(Split(Trim(path, IsSlash), '/'));
  }

  /** The transaction handler's resolver; the body namespace is taken as written. */
  method ResolveTransactionNamespace(handlerNs: string, path: string, bodyNs: string) returns (r: Option<string>)
    ensures r == Resolve(handlerNs, path, bodyNs)
  {
    var requestNamespace := handlerNs;
    if requestNamespace == "" {
      requestNamespace := TransactionRequestNamespace(path);
    }
    if bodyNs != "" && requestNamespace != "" && bodyNs != requestNamespace {
      return None;
    }
    if requestNamespace == "" {
      requestNamespace := bodyNs;
    }
    return Some(requestNamespace);
  }

  /** The decision handler's resolver, with the name it answers under; the decoder has already
      trimmed the body's namespace and name. */
  method ResolveNamespaceAndName(handlerNs: string, handlerName: string, path: string, bodyNs: string, bodyName: string,
                                 generated: string)
    returns (r: Option<(string, string)>)
    ensures r.None? <==> Resolve(handlerNs, path, bodyNs).None?
    ensures r.Some? ==> Some(r.value.0) == Resolve(handlerNs, path, bodyNs)
    ensures r.Some?
            ==> r.value.1 == if bodyName != "" then bodyName else if handlerName != "" then handlerName else generated
  {
    var requestNamespace := handlerNs;
    if requestNamespace == "" {
      requestNamespace := TransactionRequestNamespace(path);
    }
    if bodyNs != "" && requestNamespace != "" && bodyNs != requestNamespace {
      return None;
    }
    if requestNamespace == "" {
      requestNamespace := bodyNs;
    }
    var decisionName := bodyName;
    if decisionName == "" {
      decisionName := handlerName;
    }
    if decisionName == "" {
      decisionName := generated;
    }
    return Some((requestNamespace, decisionName));
  }

  /** Both handlers accept a request posted to the printed path of its own namespace exactly when
      the body names that namespace or none, and then resolve to it. */
  lemma PostedPathResolves(m: Mapping, namespace: string, operation: string, name: string, bodyNs: string)
    requires PrintableMapping(m, namespace, operation, name) && !m.clusterScoped
    requires m.group != "namespaces" && m.version != "namespaces"
    ensures Resolve("", Printed(PathSegments(m, namespace, operation, name)), bodyNs)
            == if bodyNs in {"", namespace} then Some(namespace) else None
  {
    ScanPrintedPath(m, namespace, operation, name);
  }
}
