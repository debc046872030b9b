/** Decoded YAML and JSON values. The YAML decoder builds maps with keys of any scalar type, the
    Kubernetes decoder builds maps with string keys only; both kinds occur in the handlers. */
module Values {
  datatype Key = KString(text: string) | KInt(n: int) | KBool(b: bool) | KNull | KOther(printed: string)

  datatype Value =
    | Null
    | Bool(b: bool)
    | Number(printed: string)
    | Str(s: string)
    | List(items: seq<Value>)
    | StrMap(entries: map<string, Value>)
    | AnyMap(keyed: map<Key, Value>)

  function Digits(n: nat): string {
    (if n < 10 then "" else Digits(n / 10)) + ["0123456789"[n % 10]]
  }

  /** `fmt.Sprint` of a map key. */
  function Sprint(k: Key): string {
    match k
    case KString(text) => text
    case KInt(n) => if n < 0 then "-" + Digits(-n) else Digits(n)
    case KBool(b) => if b then "true" else "false"
    case KNull => "<nil>"
    case KOther(printed) => printed
  }

  // ----- what keys print as -----

  predicate IsDigit(c: char) { '0' <= c <= '9' }

  /** A decimal numeral, read from left to right. */
  function NumeralValue(s: string): nat {
    if s == "" then 0
    else
      var last := s[|s| - 1];
      10 * NumeralValue(s[..|s| - 1]) + if IsDigit(last) then last as int - '0' as int else 0
  }

  ghost predicate IsNumeral(s: string) {
    s != "" && (forall i | 0 <= i < |s| :: IsDigit(s[i])) && (|s| > 1 ==> s[0] != '0')
  }

  lemma DigitCharacter(d: nat)
    requires d < 10
    ensures "0123456789"[d] as int == '0' as int + d
  {
    if d == 0 {} else if d == 1 {} else if d == 2 {} else if d == 3 {} else if d == 4 {}
    else if d == 5 {} else if d == 6 {} else if d == 7 {} else if d == 8 {} else {}
  }

  lemma {:induction false} DigitsAreNumeral(n: nat)
    ensures IsNumeral(Digits(n)) && NumeralValue(Digits(n)) == n
  {
    var s := Digits(n);
    DigitCharacter(n % 10);
    if n < 10 {
      assert s[..0] == "";
    } else {
      DigitsAreNumeral(n / 10);
      assert s[..|s| - 1] == Digits(n / 10);
    }
  }

  /** The last digit and the rest of a numeral, in numbers. */
  lemma NumeralParts(s: string)
    requires IsNumeral(s)
    ensures var init, d := s[..|s| - 1], s[|s| - 1] as int - '0' as int;
            && 0 <= d < 10 && NumeralValue(s) == 10 * NumeralValue(init) + d
            && (init != "" ==> IsNumeral(init) && s[0] != '0') && (init == "" ==> NumeralValue(init) == 0)
  {
    assert IsDigit(s[|s| - 1]);
  }

  lemma {:induction false} NumeralPositive(s: string)
    requires IsNumeral(s) && s[0] != '0'
    ensures NumeralValue(s) > 0
    decreases |s|
  {
    NumeralParts(s);
    if |s| > 1 { NumeralPositive(s[..|s| - 1]); } else { assert s[0] == s[|s| - 1]; }
  }

  lemma {:induction false} NumeralsDiffer(s: string, t: string)
    requires IsNumeral(s) && IsNumeral(t) && NumeralValue(s) == NumeralValue(t)
    ensures s == t
    decreases |s|
  {
    NumeralParts(s);
    NumeralParts(t);
    var a, b := s[..|s| - 1], t[..|t| - 1];
    if a != "" { NumeralPositive(a); }
    if b != "" { NumeralPositive(b); }
    assert NumeralValue(a) == NumeralValue(b);
    if a != "" { NumeralsDiffer(a, b); }
    assert s == a + [s[|s| - 1]] && t == b + [t[|t| - 1]];
  }

  /** A number prints as its decimal numeral, the one without superfluous zeros. */
  lemma DigitsExactly(n: nat, s: string)
    ensures s == Digits(n) <==> IsNumeral(s) && NumeralValue(s) == n
  {
    DigitsAreNumeral(n);
    if IsNumeral(s) && NumeralValue(s) == n { NumeralsDiffer(s, Digits(n)); }
  }

  /** Reading an integer with its sign. */
  function ReadInteger(s: string): int {
    if s != "" && s[0] == '-' then 0 - NumeralValue(s[1..]) else NumeralValue(s)
  }

  /** An integer key prints as a numeral, after a minus sign if it is negative, and reads back. */
  lemma IntegerReadsBack(n: int)
    ensures var s := Sprint(KInt(n));
            && ReadInteger(s) == n
            && (n >= 0 ==> IsNumeral(s)) && (n < 0 ==> s[..1] == "-" && IsNumeral(s[1..]))
  {
    var s := Sprint(KInt(n));
    DigitsAreNumeral(if n < 0 then -n else n);
    if n < 0 { assert s[1..] == Digits(-n); } else { assert IsDigit(s[0]); }
  }

  /** Strings print as they are; the other texts are fixed. */
  lemma PrintedTexts(text: string)
    ensures Sprint(KString(text)) == text
    ensures Sprint(KBool(true)) == "true" && Sprint(KBool(false)) == "false" && Sprint(KNull) == "<nil>"
  {
  }

  /** Integers, booleans and nil print apart; only strings and keys of other types can print like
      another key. */
  lemma ScalarsPrintApart(k: Key, k': Key)
    requires !k.KString? && !k.KOther? && !k'.KString? && !k'.KOther?
    ensures Sprint(k) == Sprint(k') <==> k == k'
  {
    if k.KInt? { IntegerReadsBack(k.n); }
    if k'.KInt? { IntegerReadsBack(k'.n); }
    IntegerFirst(k);
    IntegerFirst(k');
    assert "true"[0] == 't' && "false"[0] == 'f' && "<nil>"[0] == '<';
  }

  lemma IntegerFirst(k: Key)
    ensures k.KInt? ==> Sprint(k) != "" && (Sprint(k)[0] == '-' || IsDigit(Sprint(k)[0]))
  {
    if k.KInt? { IntegerReadsBack(k.n); }
  }

  // ----- Kubernetes objects -----

  /** The fields of an unstructured object. */
  type Object = map<string, Value>

  /** A string field, or "" when it is missing or of another type. */
  function StringField(o: map<string, Value>, field: string): string {
    if field in o && o[field].Str? then o[field].s else ""
  }

  /** The accessors of an unstructured object see string-keyed metadata only. */
  function MetadataField(o: Object, field: string): string {
    if "metadata" in o && o["metadata"].StrMap? then StringField(o["metadata"].entries, field) else ""
  }

  function GetName(o: Object): string { MetadataField(o, "name") }

  function GetNamespace(o: Object): string { MetadataField(o, "namespace") }

  /** `SetNamespace` for a non-empty namespace: creates missing metadata, gives up on metadata
      that is not a string-keyed map. */
  function SetNamespace(o: Object, namespace: string): Object {
    if "metadata" !in o then o["metadata" := StrMap(map["namespace" := Str(namespace)])]
    else match o["metadata"]
      case StrMap(m) => o["metadata" := StrMap(m["namespace" := Str(namespace)])]
      case _ => o
  }

  /** Name and namespace are read from string-keyed metadata; anything else reads as "". */
  lemma AccessorsRead(o: Object, metadata: map<string, Value>, name: string, namespace: string)
    requires "metadata" in o && o["metadata"] == StrMap(metadata)
    ensures "name" in metadata && metadata["name"] == Str(name) ==> GetName(o) == name
    ensures "namespace" in metadata && metadata["namespace"] == Str(namespace) ==> GetNamespace(o) == namespace
    ensures GetName(o) != "" ==> "name" in metadata && metadata["name"] == Str(GetName(o))
    ensures GetNamespace(o) != "" ==> "namespace" in metadata && metadata["namespace"] == Str(GetNamespace(o))
  {
  }

  /** Setting the namespace changes the field `namespace` of the metadata and nothing else. */
  lemma SetNamespaceSets(o: Object, namespace: string)
    requires "metadata" !in o || o["metadata"].StrMap?
    ensures var r := SetNamespace(o, namespace);
            && r.Keys == o.Keys + {"metadata"} && (forall f | f in o && f != "metadata" :: r[f] == o[f])
            && r["metadata"].StrMap? && GetNamespace(r) == namespace
            && var before := if "metadata" in o then o["metadata"].entries else map[];
               r["metadata"].entries == before["namespace" := Str(namespace)]
  {
  }

  lemma SetNamespaceKeepsName(o: Object, namespace: string)
    ensures GetName(SetNamespace(o, namespace)) == GetName(o)
    ensures "metadata" !in o || o["metadata"].StrMap? ==> GetNamespace(SetNamespace(o, namespace)) == namespace
  {
  }
}
