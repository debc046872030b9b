/** Validating and defaulting a resource by a dry run against the API server, and why that keeps
    the resource in the namespace that was authorised. */
module ResourceValidation {
  import opened GoStrings
  import opened ApiVersions
  import opened Values
  import opened RequestPaths
  import opened TransactionEnv
  import opened Staging

  /** The API server's dry-run answer to a method, path and object; `None` is any error. */
  type Server = (string, string, Object) -> Option<Object>

  /** Without a client the object is taken as it is. */
  function Validated(client: Option<Server>, m: Mapping, operation: string, namespace: string, o: Object): Validation {
    match client
    case None => Valid(o)
    case Some(server) =>
      match ApiPath(Some(m), namespace, operation, GetName(o))
      case Err(_) => Invalid
      case Ok(path) =>
        match server(if operation == UPDATE then "PUT" else "POST", path, o)
        case None => Invalid
        case Some(answer) => Valid(answer)
  }

  method ValidateAndDefault(client: Option<Server>, m: Mapping, operation: string, namespace: string, o: Object)
    returns (r: Validation)
    ensures r == Validated(client, m, operation, namespace, o)
  {
    if client.None? { return Valid(o); }
    var path := ResourceApiPath(Some(m), namespace, operation, GetName(o));
    if path.Err? { return Invalid; }
    var verb := "POST";
    if operation == UPDATE {
      verb := "PUT";
    }
    var server := client.value;
    var answer := server(verb, path.value, o);
    if answer.None? { return Invalid; }
    return Valid(answer.value);
  }

  /** An update is put to the path of the object, anything else is posted to the path of its
      resource, and the server's answer is taken; without a path or an answer there is none. */
  lemma ValidatedExactly(server: Server, m: Mapping, operation: string, namespace: string, o: Object, answer: Object)
    ensures Validated(None, m, operation, namespace, o) == Valid(o)
    ensures Validated(Some(server), m, operation, namespace, o) == Valid(answer)
            <==> exists path ::
                   && ApiPath(Some(m), namespace, operation, GetName(o)) == Ok(path)
                   && (operation == "update" ==> server("PUT", path, o) == Some(answer))
                   && (operation != "update" ==> server("POST", path, o) == Some(answer))
    ensures Validated(Some(server), m, operation, namespace, o).Valid?
            || Validated(Some(server), m, operation, namespace, o) == Invalid
  {
  }

  /** The server answers with an object in the namespace of the path it was asked at, or in none. */
  ghost predicate AnswersInPath(server: Server) {
    forall verb, path, o :: AnswerInPath(server(verb, path, o), path)
  }

  predicate AnswerInPath(answer: Option<Object>, path: string) {
    answer.Some? ==> GetNamespace(answer.value) == "" || GetNamespace(answer.value) == RequestNamespace(path)
  }

  /** A mapping whose path names no namespace but the intended one. */
  predicate Addressable(m: Mapping) {
    Segment(m.version) && Segment(m.resource) && '/' !in m.group && m.group != "namespaces" && m.version != "namespaces"
  }

  /** Such a server keeps every resource with a well-formed namespace and name where it was sent:
      the printed path carries exactly that namespace. */
  lemma ServerKeepsNamespace(server: Server, m: Mapping, operation: string, namespace: string, o: Object)
    requires AnswersInPath(server) && Addressable(m) && '/' !in namespace && '/' !in GetName(o)
    ensures NamespaceKept(Validated(Some(server), m, operation, namespace, o), m, namespace)
  {
    var path := ApiPath(Some(m), namespace, operation, GetName(o));
    if path.Ok? && !m.clusterScoped {
      var verb := if operation == UPDATE then "PUT" else "POST";
      ScanPrintedPath(m, namespace, operation, GetName(o));
      assert RequestNamespace(path.value) == namespace;
      assert AnswerInPath(server(verb, path.value, o), path.value);
    }
  }

  /** So an entry validated by such a server meets the staging pass's assumption about it. */
  lemma ServerAnswerStays(server: Server, env: Env, t: Tagged, ns: string, o: Object, m: Mapping)
    requires env.decode(t.entry) == Some(o) && env.stageLookup(GvkOf(o)) == Found(m)
    requires env.validate(m, t.operation, TargetNamespace(o, m, ns), Filled(o, m, ns))
             == Validated(Some(server), m, t.operation, TargetNamespace(o, m, ns), Filled(o, m, ns))
    requires AnswersInPath(server) && Addressable(m)
    requires '/' !in TargetNamespace(o, m, ns) && '/' !in GetName(o)
    ensures AnswerStays(env, t, ns)
  {
    SetNamespaceKeepsName(o, TargetNamespace(o, m, ns));
    ServerKeepsNamespace(server, m, t.operation, TargetNamespace(o, m, ns), Filled(o, m, ns));
  }

  /** Without a client an entry keeps the namespace it was given. */
  lemma NoClientKeepsNamespace(o: Object, m: Mapping, operation: string, requestNs: string)
    ensures NamespaceKept(Validated(None, m, operation, TargetNamespace(o, m, requestNs), Filled(o, m, requestNs)),
                          m, TargetNamespace(o, m, requestNs))
  {
  }
}
