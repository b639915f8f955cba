/** Canonical entity references `kind:namespace/name` and their text form. */
module Refs {
  import opened Wrappers

  datatype Ref = Ref(kind: string, namespace: string, name: string)

  const UserKind: string := "user"
  const GroupKind: string := "group"
  const DefaultNamespace: string := "default"

  /** The textual form of a reference, `<kind>:<namespace>/<name>`. */
  function Text(r: Ref): string {
    r.kind + ":" + r.namespace + "/" + r.name
  }

  /** A reference whose text form can be split back unambiguously. */
  ghost predicate WellFormed(r: Ref) {
    ':' !in r.kind && '/' !in r.namespace
  }

  /** Splits `s` around the first occurrence of `c`, if there is one. */
  function SplitFirst(s: string, c: char): (r: Option<(string, string)>)
    ensures r.Some? ==> s == r.value.0 + [c] + r.value.1 && c !in r.value.0
    ensures r.None? <==> c !in s
  {
    if s == [] then None
    else if s[0] == c then Some(([], s[1..]))
    else match SplitFirst(s[1..], c)
      case None => None
      case Some(p) => Some(([s[0]] + p.0, p.1))
  }

  /** Reads a text form: the kind up to the first ':', the namespace up to
      the first '/' after it, and the rest as the name. */
  function Parse(s: string): Option<Ref> {
    match SplitFirst(s, ':')
    case None => None
    case Some(kindRest) =>
      match SplitFirst(kindRest.1, '/')
      case None => None
      case Some(nsName) => Some(Ref(kindRest.0, nsName.0, nsName.1))
  }

  /** The kind token of a reference text: everything before its first ':'. */
  function KindOf(s: string): (k: Option<string>)
    ensures k.Some? <==> ':' in s
    ensures k.Some? ==> ':' !in k.value && |k.value| < |s| && s[..|k.value| + 1] == k.value + ":"
  {
    match SplitFirst(s, ':')
    case None => None
    case Some(p) =>
      assert s[..|p.0| + 1] == p.0 + ":" by { assert s == (p.0 + ":") + p.1; }
      Some(p.0)
  }

  /** A bare group name, as written in a group's parent or children field,
      names a group in the default namespace. */
  function GroupRef(name: string): (r: Ref)
    ensures r.kind == GroupKind && r.namespace == DefaultNamespace && r.name == name
    ensures Text(r) == "group:default/" + name
  {
    Ref(GroupKind, DefaultNamespace, name)
  }

  /** The elements of a sequence of references, as a set. */
  function Elems(s: seq<Ref>): set<Ref> {
    set r | r in s
  }

  /** The split around the first `c` of `a + [c] + b` is `(a, b)` when `a`
      holds no `c`. */
  lemma {:induction false} SplitFirstAfter(a: string, c: char, b: string)
    requires c !in a
    ensures SplitFirst(a + [c] + b, c) == Some((a, b))
  {
    if a != [] {
      assert (a + [c] + b)[1..] == a[1..] + [c] + b;
      SplitFirstAfter(a[1..], c, b);
      assert [a[0]] + a[1..] == a;
    }
  }

  /** Printing then parsing a well-formed reference gives it back. */
  lemma ParseText(r: Ref)
    requires WellFormed(r)
    ensures Parse(Text(r)) == Some(r)
  {
    var rest := r.namespace + ['/'] + r.name;
    assert Text(r) == r.kind + [':'] + rest;
    SplitFirstAfter(r.kind, ':', rest);
    SplitFirstAfter(r.namespace, '/', r.name);
  }

  /** What parses has the kind `KindOf` reads off it. */
  lemma KindOfParse(s: string)
    requires Parse(s).Some?
    ensures KindOf(s) == Some(Parse(s).value.kind)
  {
  }

  /** Parsing succeeds only on a text form, and gives a well-formed reference. */
  lemma TextParse(s: string)
    requires Parse(s).Some?
    ensures WellFormed(Parse(s).value)
    ensures Text(Parse(s).value) == s
  {
    var kindRest := SplitFirst(s, ':').value;
    var nsName := SplitFirst(kindRest.1, '/').value;
    assert Parse(s) == Some(Ref(kindRest.0, nsName.0, nsName.1));
    TextParts(kindRest.0, nsName.0, nsName.1);
  }

  /** The text form written as the parts `Parse` splits it into. */
  lemma TextParts(kind: string, namespace: string, name: string)
    ensures Text(Ref(kind, namespace, name)) == kind + [':'] + (namespace + ['/'] + name)
  {
  }

  /** The kind token of a well-formed reference's text is its kind. */
  lemma KindOfText(r: Ref)
    requires WellFormed(r)
    ensures KindOf(Text(r)) == Some(r.kind)
  {
    var rest := r.namespace + ['/'] + r.name;
    assert Text(r) == r.kind + [':'] + rest;
    SplitFirstAfter(r.kind, ':', rest);
  }

  /** The text of a group reference reads back as that group, and its kind
      is the group kind, so a group target is never a user target. */
  lemma GroupTarget(name: string)
    ensures KindOf(Text(GroupRef(name))) == Some(GroupKind)
    ensures Parse(Text(GroupRef(name))) == Some(GroupRef(name))
  {
    KindOfText(GroupRef(name));
    ParseText(GroupRef(name));
  }

  /** Distinct names make distinct group references with distinct texts. */
  lemma DistinctGroups(a: string, b: string)
    requires a != b
    ensures GroupRef(a) != GroupRef(b)
    ensures Text(GroupRef(a)) != Text(GroupRef(b))
  {
    var prefix := "group:default/";
    assert Text(GroupRef(a))[|prefix|..] == a;
    assert Text(GroupRef(b))[|prefix|..] == b;
  }
}
