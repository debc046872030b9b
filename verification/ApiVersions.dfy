/** Group, version and kind of an object, and the two ways the handlers read an `apiVersion`. */
module ApiVersions {
  import opened GoStrings

  datatype Gvk = Gvk(group: string, version: string, kind: string)

  /** What the REST mapper knows about a kind. */
  datatype Mapping = Mapping(group: string, version: string, resource: string, clusterScoped: bool)

  /** The mapper's answer: a mapping, no mapping and no error, or an error. */
  datatype Lookup = Found(mapping: Mapping) | NotMapped | LookupFailed

  /** The outcome of an access review. */
  datatype Review = Allowed | Denied | ReviewFailed

  /** The transaction handler: a bare `apiVersion` is always a version. */
  function TransactionGvk(apiVersion: string, kind: string): Gvk {
    var parts := Split(apiVersion, '/');
    if |parts| == 1 then Gvk("", parts[0], kind) else Gvk(parts[0], parts[1], kind)
  }

  predicate LooksLikeVersion(p: string) {
    HasPrefix(p, "v") && |p| > 1 && '0' <= p[1] <= '9'
  }

  /** The count handler: a bare `apiVersion` that does not look like a version is a group. */
  function CountGvk(apiVersion: string, kind: string): Gvk {
    var parts := Split(apiVersion, '/');
    if |parts| == 1 then
      if LooksLikeVersion(parts[0]) then Gvk("", parts[0], kind) else Gvk(parts[0], "", kind)
    else Gvk(parts[0], parts[1], kind)
  }

  /** The text gives a group and a version, up to its second slash if it has one. */
  ghost predicate GivesGroupVersion(text: string, group: string, version: string) {
    && '/' !in group && '/' !in version
    && (text == group + "/" + version || group + "/" + version + "/" <= text)
  }

  lemma SplitAt(text: string, head: string, rest: string)
    requires '/' !in head && text == head + "/" + rest
    ensures Split(text, '/') == [head] + Split(rest, '/')
  {
    SplitHead(head, rest, '/');
    assert text == head + ['/'] + rest;
  }

  lemma GivenIsSplit(text: string, group: string, version: string)
    requires GivesGroupVersion(text, group, version)
    ensures var parts := Split(text, '/'); |parts| >= 2 && parts[0] == group && parts[1] == version
  {
    var tail := text[|group| + 1..];
    assert text == group + "/" + tail;
    SplitAt(text, group, tail);
    if tail == version {
      SplitSeparatorFree(tail, '/');
    } else {
      var rest := tail[|version| + 1..];
      assert tail == version + "/" + rest;
      SplitAt(tail, version, rest);
    }
  }

  lemma SplitIsGiven(text: string)
    requires '/' in text
    ensures var parts := Split(text, '/'); |parts| >= 2 && GivesGroupVersion(text, parts[0], parts[1])
  {
    var parts := Split(text, '/');
    SplitCount(text, '/');
    JoinSplit(text, '/');
    assert text == parts[0] + "/" + Join(parts[1..], '/');
    if |parts| > 2 {
      var rest := Join(parts[2..], '/');
      assert parts[1..][1..] == parts[2..];
      assert Join(parts[1..], '/') == parts[1] + "/" + rest;
      assert text == parts[0] + "/" + parts[1] + "/" + rest;
    }
  }

  /** What an `apiVersion` names to the count handler: a group and a version around the slash; a
      bare version when it is a `v` followed by a digit; else a bare group. */
  ghost predicate CountNames(apiVersion: string, kind: string, gvk: Gvk) {
    && gvk.kind == kind
    && if '/' in apiVersion then GivesGroupVersion(apiVersion, gvk.group, gvk.version)
       else if |apiVersion| >= 2 && apiVersion[0] == 'v' && apiVersion[1] in "0123456789"
       then gvk.group == "" && gvk.version == apiVersion
       else gvk.group == apiVersion && gvk.version == ""
  }

  /** And to the transaction handler: a bare string is always a version. */
  ghost predicate TransactionNames(apiVersion: string, kind: string, gvk: Gvk) {
    && gvk.kind == kind
    && if '/' in apiVersion then GivesGroupVersion(apiVersion, gvk.group, gvk.version)
       else gvk.group == "" && gvk.version == apiVersion
  }

  /** Each parser reads exactly the one kind that is named. */
  lemma ParsersReadExactly(apiVersion: string, kind: string, gvk: Gvk)
    ensures CountGvk(apiVersion, kind) == gvk <==> CountNames(apiVersion, kind, gvk)
    ensures TransactionGvk(apiVersion, kind) == gvk <==> TransactionNames(apiVersion, kind, gvk)
  {
    if '/' in apiVersion {
      SplitIsGiven(apiVersion);
      if GivesGroupVersion(apiVersion, gvk.group, gvk.version) { GivenIsSplit(apiVersion, gvk.group, gvk.version); }
    } else {
      SplitSeparatorFree(apiVersion, '/');
      assert forall c :: c in "0123456789" <==> '0' <= c <= '9';
    }
  }

  /** The two parsers differ exactly on non-empty bare strings that do not look like a version. */
  lemma ParsersAgree(apiVersion: string, kind: string)
    ensures TransactionGvk(apiVersion, kind) == CountGvk(apiVersion, kind)
            <==> '/' in apiVersion || LooksLikeVersion(apiVersion) || apiVersion == ""
  {
    SplitCount(apiVersion, '/');
    if '/' !in apiVersion { SplitSeparatorFree(apiVersion, '/'); }
  }

  /** Printing a group and version and reading them back returns both, in either handler. */
  lemma GroupVersionRoundTrip(group: string, version: string, kind: string)
    requires '/' !in group && '/' !in version
    ensures TransactionGvk(group + "/" + version, kind) == CountGvk(group + "/" + version, kind)
            == Gvk(group, version, kind)
  {
    assert group + "/" + version == Join([group, version], '/');
    SplitJoin([group, version], '/');
  }
}
