/** Identities: the key bound at write and the keys visible at read. */
module Principals {
  import opened Text
  import opened Entries

  /** A value of the free-form identity map. */
  datatype Value = Str(s: string) | NotAString

  type Identity = map<string, Value>

  const ATTESTED := "attested"
  const SHARED_SCOPE := "shared"
  const UNBOUND := ""
  const SHARED_KEY := "shared://"

  datatype Principal = Principal(subject: string, tier: string, scope: string) {
    predicate Attested() { tier == ATTESTED }
    predicate SharedScope() { scope == SHARED_SCOPE }
  }

  function StringAt(identity: Identity, key: string): string {
    if key in identity && identity[key].Str? then identity[key].s else ""
  }

  function PrincipalFromMap(identity: Identity): Principal {
    Principal(TrimSpace(StringAt(identity, "spiffe_id")), TrimSpace(StringAt(identity, "trust_tier")),
              TrimSpace(StringAt(identity, "scope")))
  }

  function WriteProvenanceHint(identity: Identity): string {
    TrimSpace(StringAt(identity, "source_class"))
  }

  function SourceClassFromMap(identity: Identity): string {
    var raw := StringAt(identity, "source_class");
    if raw == "external_tool" || raw == "user_input" || raw == "agent_authored" || raw == "system" then raw
    else "unknown"
  }

  /** The key an entry written by `p` carries. */
  function BoundKeyFor(p: Option<Principal>): string {
    match p
    case None => UNBOUND
    case Some(w) =>
      var subject := if w.subject == SHARED_KEY then UNBOUND else w.subject;
      if w.Attested() && w.SharedScope() then SHARED_KEY
      else if w.Attested() && subject != "" then subject
      else UNBOUND
  }

  /** The one bound key a reader may see besides the shared one, and whether isolation is enforced. */
  function ReaderVisibilityKey(p: Option<Principal>): (string, bool) {
    if p.Some? && p.value.Attested() && p.value.subject != "" then (p.value.subject, true) else (UNBOUND, false)
  }

  function VisibleKeys(p: Option<Principal>): seq<string> {
    [ReaderVisibilityKey(p).0, SHARED_KEY]
  }

  /** What an identity gives under a key: its trimmed string, or nothing. */
  function Given(identity: Identity, key: string): string {
    if key in identity && identity[key].Str? then TrimSpace(identity[key].s) else ""
  }

  /** The key an identity's entries carry: the shared marker for an attested request for the shared scope, else the
      attested writer's own id unless that is the marker, else none. */
  predicate BoundTo(identity: Identity, key: string) {
    var subject, attested := Given(identity, "spiffe_id"), Given(identity, "trust_tier") == "attested";
    && (attested && Given(identity, "scope") == "shared" ==> key == "shared://")
    && (attested && Given(identity, "scope") != "shared" && subject != "shared://" ==> key == subject)
    && (!attested || (Given(identity, "scope") != "shared" && subject == "shared://") ==> key == "")
  }

  /** One of the four known classes, to the letter, or unknown. */
  predicate ClassedAs(identity: Identity, cls: string) {
    var known := {"external_tool", "user_input", "agent_authored", "system"};
    if "source_class" in identity && identity["source_class"].Str? && identity["source_class"].s in known
    then cls == identity["source_class"].s
    else cls == "unknown"
  }

  lemma BoundByItsKeys(identity: Identity)
    ensures BoundTo(identity, BoundKeyFor(Some(PrincipalFromMap(identity))))
  {
  }

  lemma ClassIsRead(identity: Identity)
    ensures ClassedAs(identity, SourceClassFromMap(identity))
    ensures WriteProvenanceHint(identity) == Given(identity, "source_class")
  {
  }

  /** A reader sees the shared entries, and besides only its own if it is attested and named, the unbound if not. */
  lemma VisibleIff(identity: Identity, key: string)
    ensures key in VisibleKeys(Some(PrincipalFromMap(identity))) <==>
      || key == "shared://"
      || key == if Given(identity, "trust_tier") == "attested" then Given(identity, "spiffe_id") else ""
  {
    var keys := VisibleKeys(Some(PrincipalFromMap(identity)));
    assert key in keys <==> key == keys[0] || key == keys[1];
  }

  /** No subject reaches the shared marker: only an attested request for the shared scope does. */
  lemma SharedIff(w: Option<Principal>)
    ensures BoundKeyFor(w) == SHARED_KEY <==> w.Some? && w.value.Attested() && w.value.SharedScope()
  {
    assert SHARED_KEY != UNBOUND;
  }

  /** Who sees what: shared entries are seen by all, unbound ones by readers without isolation (and by a reader
      named like the marker: by none), and bound ones by exactly the attested subject that wrote them. */
  lemma SeesIff(w: Option<Principal>, r: Option<Principal>)
    ensures BoundKeyFor(w) in VisibleKeys(r) <==>
      || (w.Some? && w.value.Attested() && w.value.SharedScope())
      || (BoundKeyFor(w) == UNBOUND && !ReaderVisibilityKey(r).1)
      || (w.Some? && w.value.Attested() && !w.value.SharedScope() && w.value.subject !in {"", SHARED_KEY}
          && r.Some? && r.value.Attested() && r.value.subject == w.value.subject)
  {
    assert SHARED_KEY != UNBOUND;
    assert forall k :: k in VisibleKeys(r) <==> k == VisibleKeys(r)[0] || k == VisibleKeys(r)[1];
  }

  /** The identity that carries a bound key. */
  function ReaderOf(key: string): Identity {
    if key == UNBOUND then map[] else map["spiffe_id" := Str(key), "trust_tier" := Str(ATTESTED)]
  }

  lemma ReaderOfGives(key: string)
    requires key != UNBOUND && TrimSpace(key) == key
    ensures Given(ReaderOf(key), "spiffe_id") == key && Given(ReaderOf(key), "trust_tier") == "attested"
  {
    TrimClean("attested");
  }

  lemma BoundKeyIsTrimmed(writer: Identity)
    ensures var key := BoundKeyFor(Some(PrincipalFromMap(writer))); key == SHARED_KEY || TrimSpace(key) == key
  {
    TrimTwice(StringAt(writer, "spiffe_id"));
    assert TrimSpace("") == "";
  }

  /** Whatever key an identity's entries are bound to, some identity reads them. */
  lemma ReaderOfSees(writer: Identity)
    ensures var key := BoundKeyFor(Some(PrincipalFromMap(writer)));
      key in VisibleKeys(Some(PrincipalFromMap(ReaderOf(key))))
  {
    var key := BoundKeyFor(Some(PrincipalFromMap(writer)));
    BoundKeyIsTrimmed(writer);
    VisibleIff(ReaderOf(key), key);
    if key != UNBOUND && key != SHARED_KEY { ReaderOfGives(key); }
  }
}
