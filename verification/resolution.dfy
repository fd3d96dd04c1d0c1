/** `TagToDigest` (k8s/resolver.py): resolving a tag to a fully qualified
    digest through the override map, which is both the memo table of earlier
    lookups and the place where freshly published digests override the
    registry. The map is threaded through as explicit state. */
module Resolution {
  import opened Wrappers
  import opened Names

  /** The registry as TagToDigest sees it, credentials already applied. */
  datatype Registry = Registry(
    v22Exists: Tag -> Result<bool, Error>,   // v2.2 `FromRegistry(tag, ...).exists()`
    v22Digest: Tag -> Result<string, Error>, // v2.2 `FromRegistry(tag, ...).digest()`
    v2Digest: Tag -> Result<string, Error>)  // v2 `FromRegistry(tag, ...).digest()`

  /** The `overrides` dict: tag to the string form of its digest. */
  type Overrides = map<Tag, string>

  /** `fully_qualify_digest`: `registry/repository@digest`, which must parse as
      a docker_name Digest. */
  function FullyQualify(names: Naming, t: Tag, digest: string): Result<string, Error> {
    var q := Qualified(t, digest);
    if names.isDigest(q) then Ok(q) else Err(BadName(q))
  }

  /** What the registry says `t` points to, with the intended fallback: the
      v2.2 manifest when it exists, the v2 manifest otherwise. */
  function FromRegistry(names: Naming, reg: Registry, t: Tag): (r: Result<string, Error>)
    ensures r.Ok? ==> names.isDigest(r.value)
    ensures r.Ok? ==>
      || (reg.v22Exists(t) == Ok(true) && reg.v22Digest(t).Ok? && r.value == Qualified(t, reg.v22Digest(t).value))
      || (reg.v22Exists(t) == Ok(false) && reg.v2Digest(t).Ok? && r.value == Qualified(t, reg.v2Digest(t).value))
    ensures reg.v22Exists(t).Err? ==> r == Err(reg.v22Exists(t).error)
  {
    match reg.v22Exists(t)
    case Err(e) => Err(e)
    case Ok(true) =>
      (match reg.v22Digest(t)
       case Err(e) => Err(e)
       case Ok(d) => FullyQualify(names, t, d))
    case Ok(false) =>
      (match reg.v2Digest(t)
       case Err(e) => Err(e)
       case Ok(d) => FullyQualify(names, t, d))
  }

  /** The same lookup as the source writes it: the fallback names `v2_image`,
      which is never imported, so it raises NameError before any v2 access. */
  function FromRegistryAsWritten(names: Naming, reg: Registry, t: Tag): (r: Result<string, Error>)
    ensures reg.v22Exists(t) == Ok(false) ==> r == Err(UnboundName("v2_image"))
    ensures reg.v22Exists(t) != Ok(false) ==> r == FromRegistry(names, reg, t)
  {
    match reg.v22Exists(t)
    case Err(e) => Err(e)
    case Ok(true) =>
      (match reg.v22Digest(t)
       case Err(e) => Err(e)
       case Ok(d) => FullyQualify(names, t, d))
    case Ok(false) => Err(UnboundName("v2_image"))
  }

  /** The registry the code as written effectively talks to: every access to
      the v2 manifest fails with the NameError of the unbound `v2_image`. */
  function AsWrittenRegistry(reg: Registry): (r: Registry)
    ensures r.v22Exists == reg.v22Exists && r.v22Digest == reg.v22Digest
    ensures forall t :: r.v2Digest(t) == Err(UnboundName("v2_image"))
  {
    reg.(v2Digest := t => Err(UnboundName("v2_image")))
  }

  /** The lookup as written is the corrected lookup against
      `AsWrittenRegistry`, so everything built on the corrected lookup (the
      cached walk, `main`) also describes the program as written, run against
      that registry. */
  lemma AsWrittenIsCorrectedOnAsWrittenRegistry(names: Naming, reg: Registry, t: Tag, m: Overrides)
    ensures FromRegistryAsWritten(names, reg, t) == FromRegistry(names, AsWrittenRegistry(reg), t)
    ensures TagToDigestAsWritten(names, reg, t, m) == TagToDigest(names, AsWrittenRegistry(reg), t, m)
  {
  }

  /** The answer a resolution of `t` gives against map `m`: the map's entry if
      there is one, the registry's answer otherwise. */
  function Lookup(names: Naming, reg: Registry, m: Overrides, t: Tag): Result<string, Error> {
    if t in m then Ok(m[t]) else FromRegistry(names, reg, t)
  }

  /** Every cached digest is one docker_name accepts as a Digest. */
  ghost predicate AllQualified(names: Naming, m: Overrides) {
    forall t :: t in m ==> names.isDigest(m[t])
  }

  /** `TagToDigest(tag, overrides, transport)`, returning the answer and the
      map afterwards. A hit answers from the map and leaves it alone; a
      successful miss writes exactly `tag` with the answer; a failed miss leaves
      the map alone. The write never changes what a later lookup of ANY tag
      answers, so the memo is transparent. */
  function TagToDigest(names: Naming, reg: Registry, t: Tag, m: Overrides): (r: (Result<string, Error>, Overrides))
    ensures t in m ==> r == (Ok(m[t]), m)
    ensures t !in m && r.0.Ok? ==> r.1 == m[t := r.0.value]
    ensures r.0.Err? ==> r.1 == m
    ensures r.0.Ok? ==> t in r.1 && r.1[t] == r.0.value
    ensures forall t' :: Lookup(names, reg, r.1, t') == Lookup(names, reg, m, t')
    ensures AllQualified(names, m) ==> AllQualified(names, r.1)
    ensures r.0 == Lookup(names, reg, m, t)
  {
    if t in m then (Ok(m[t]), m)
    else
      var d := FromRegistry(names, reg, t);
      if d.Ok? then
        FromRegistryQualified(names, reg, t);
        (d, m[t := d.value])
      else (d, m)
  }

  /** `TagToDigest` as written, with the fallback that raises NameError. */
  function TagToDigestAsWritten(names: Naming, reg: Registry, t: Tag, m: Overrides): (r: (Result<string, Error>, Overrides))
    ensures t in m ==> r == (Ok(m[t]), m)
    ensures r.0.Err? ==> r.1 == m
  {
    if t in m then (Ok(m[t]), m)
    else
      var d := FromRegistryAsWritten(names, reg, t);
      if d.Ok? then (d, m[t := d.value]) else (d, m)
  }

  /** A registry answer is `registry/repository@d` for the digest `d` of the
      manifest generation that was used, and docker_name accepts it. */
  lemma FromRegistryQualified(names: Naming, reg: Registry, t: Tag)
    requires FromRegistry(names, reg, t).Ok?
    ensures names.isDigest(FromRegistry(names, reg, t).value)
    ensures exists d ::
      && FromRegistry(names, reg, t).value == Qualified(t, d)
      && (reg.v22Exists(t) == Ok(true) ==> reg.v22Digest(t) == Ok(d))
      && (reg.v22Exists(t) == Ok(false) ==> reg.v2Digest(t) == Ok(d))
  {
    var d := if reg.v22Exists(t) == Ok(true) then reg.v22Digest(t).value else reg.v2Digest(t).value;
    assert FromRegistry(names, reg, t).value == Qualified(t, d);
  }

  /** A hit makes no registry call: the answer and the map do not depend on
      the registry at all. */
  lemma CacheHitNoRegistry(names: Naming, reg: Registry, other: Registry, t: Tag, m: Overrides)
    requires t in m
    ensures TagToDigest(names, reg, t, m) == TagToDigest(names, other, t, m) == (Ok(m[t]), m)
  {
  }

  /** The v2 accessor is consulted only when the v2.2 image reports that it
      does not exist: replacing it changes nothing otherwise. */
  lemma V2OnlyWhenV22Missing(names: Naming, reg: Registry, v2: Tag -> Result<string, Error>, t: Tag)
    requires reg.v22Exists(t) != Ok(false)
    ensures FromRegistry(names, reg.(v2Digest := v2), t) == FromRegistry(names, reg, t)
  {
  }

  /** A miss on a tag the v2.2 registry has answers with, and caches, the
      qualified v2.2 digest. */
  lemma MissV22(names: Naming, reg: Registry, t: Tag, m: Overrides, d: string)
    requires t !in m
    requires reg.v22Exists(t) == Ok(true) && reg.v22Digest(t) == Ok(d)
    requires names.isDigest(Qualified(t, d))
    ensures TagToDigest(names, reg, t, m) == (Ok(t.registry + "/" + t.repository + "@" + d), m[t := t.registry + "/" + t.repository + "@" + d])
  {
  }

  /** A miss on a tag the v2.2 registry lacks falls back to v2, and the
      answer, the qualified v2 digest, is cached. */
  lemma MissFallsBackToV2(names: Naming, reg: Registry, t: Tag, m: Overrides, d: string)
    requires t !in m
    requires reg.v22Exists(t) == Ok(false) && reg.v2Digest(t) == Ok(d)
    requires names.isDigest(Qualified(t, d))
    ensures TagToDigest(names, reg, t, m) == (Ok(t.registry + "/" + t.repository + "@" + d), m[t := t.registry + "/" + t.repository + "@" + d])
  {
  }

  /** As written, every fallback fails with NameError and caches nothing. */
  lemma AsWrittenFallbackFails(names: Naming, reg: Registry, t: Tag, m: Overrides)
    requires t !in m
    requires reg.v22Exists(t) == Ok(false)
    ensures TagToDigestAsWritten(names, reg, t, m) == (Err(UnboundName("v2_image")), m)
  {
  }

  /** Outside the fallback, the code as written and the corrected code agree. */
  lemma AsWrittenAgreesOutsideFallback(names: Naming, reg: Registry, t: Tag, m: Overrides)
    requires t in m || reg.v22Exists(t) != Ok(false)
    ensures TagToDigestAsWritten(names, reg, t, m) == TagToDigest(names, reg, t, m)
  {
  }

  /** A concrete registry that serves only a v2 manifest for `t`: the corrected
      lookup resolves it, the code as written does not. */
  lemma FallbackCounterexample()
    ensures var names := Naming(s => None, s => true, (t: Tag) => t.registry + "/" + t.repository);
            var reg := Registry(t => Ok(false), t => Err(RegistryError("no v2.2 manifest")), t => Ok("sha256:abc"));
            var t := Tag("gcr.io", "proj/app", "v1");
            && TagToDigest(names, reg, t, map[]).0 == Ok("gcr.io/proj/app@sha256:abc")
            && TagToDigestAsWritten(names, reg, t, map[]).0 == Err(UnboundName("v2_image"))
  {
    var names := Naming(s => None, s => true, (t: Tag) => t.registry + "/" + t.repository);
    var reg := Registry(t => Ok(false), t => Err(RegistryError("no v2.2 manifest")), t => Ok("sha256:abc"));
    var t := Tag("gcr.io", "proj/app", "v1");
    assert Qualified(t, "sha256:abc") == "gcr.io/proj/app@sha256:abc";
    MissFallsBackToV2(names, reg, t, map[], "sha256:abc");
  }
}
