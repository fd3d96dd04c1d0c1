/** `main` (k8s/resolver.py) after argument parsing: publish every image spec
    in order, installing each answer into the override map, then walk every
    document with that map shared across documents. Reading the template and
    YAML text handling are outside this model, so documents arrive loaded. */
module Orchestrator {
  import opened Wrappers
  import opened PyStr
  import opened PyDict
  import opened Names
  import opened Resolution
  import opened Walker
  import opened CachedWalk
  import opened Publisher

  /** The keyword arguments `Publish` accepts besides `transport`. */
  const Keywords: set<string> := {"name", "tarball", "config", "digest", "layer"}

  /** One `key=value` part: `part.split('=', 2)` must have exactly two pieces
      for `dict(...)` to accept it, which is exactly when `part` holds one `=`. */
  function KeyValue(part: string): (r: Result<(string, string), Error>)
    ensures r.Ok? <==> Count(part, '=') == 1
    ensures r.Ok? ==> r.value.0 + "=" + r.value.1 == part && '=' !in r.value.0
  {
    var kv := Split(part, '=');
    if |kv| == 2 then
      JoinSplit(part, '=');
      assert Join(kv, '=') == kv[0] + ['='] + kv[1];
      Ok((kv[0], kv[1]))
    else Err(MalformedPart(part))
  }

  /** `[x.split('=', 2) for x in parts]` fed to `dict`: the first malformed
      part is the one reported. */
  function KeyValues(parts: seq<string>): (r: Result<seq<(string, string)>, Error>)
    ensures r.Ok? <==> forall i :: 0 <= i < |parts| ==> KeyValue(parts[i]).Ok?
    ensures r.Ok? ==> |r.value| == |parts| && forall i :: 0 <= i < |parts| ==> KeyValue(parts[i]) == Ok(r.value[i])
    ensures r.Err? ==> exists i :: && 0 <= i < |parts| && KeyValue(parts[i]) == Err(r.error)
                                   && forall j :: 0 <= j < i ==> KeyValue(parts[j]).Ok?
  {
    if parts == [] then Ok([])
    else
      match KeyValue(parts[0])
      case Err(e) => Err(e)
      case Ok(kv) =>
        match KeyValues(parts[1..])
        case Err(e) => Err(e)
        case Ok(rest) => Ok([kv] + rest)
  }

  /** The first key of the dict that `Publish` does not accept. */
  function FirstUnknown(d: seq<(string, string)>): (r: Option<string>)
    ensures r.None? <==> forall i :: 0 <= i < |d| ==> d[i].0 in Keywords
    ensures r.Some? ==> r.value in Keys(d) && r.value !in Keywords
  {
    if d == [] then None
    else if d[0].0 !in Keywords then Some(d[0].0)
    else
      var r := FirstUnknown(d[1..]);
      KeysCons(d[0], d[1..]);
      assert d == [d[0]] + d[1..];
      r
  }

  /** A part `dict` accepts whose key `Publish` accepts too. */
  predicate Accepted(part: string) {
    KeyValue(part).Ok? && KeyValue(part).value.0 in Keywords
  }

  /** Part `i` is the last part naming its key. */
  predicate LastOfKey(parts: seq<string>, i: int) {
    && 0 <= i < |parts| && KeyValue(parts[i]).Ok?
    && forall j :: i < j < |parts| && KeyValue(parts[j]).Ok? ==> KeyValue(parts[j]).value.0 != KeyValue(parts[i]).value.0
  }

  /** The keyword argument of `Publish` named `k`. */
  function Field(s: ImageSpec, k: string): Option<string> {
    if k == "name" then s.name
    else if k == "tarball" then s.tarball
    else if k == "config" then s.config
    else if k == "digest" then s.digest
    else s.layer
  }

  /** The keyword arguments a dict supplies. */
  function SpecOf(d: seq<(string, string)>): (s: ImageSpec)
    ensures forall k :: k in Keywords ==> Field(s, k) == Get(d, k)
  {
    ImageSpec(Get(d, "name"), Get(d, "tarball"), Get(d, "config"), Get(d, "digest"), Get(d, "layer"))
  }

  /** `dict([x.split('=', 2) for x in parts])` turned into the keyword
      arguments of `Publish`. A malformed part fails before any keyword is
      looked at; then an unknown keyword fails the call; otherwise each keyword
      holds the value of its LAST part and a keyword no part names is absent. */
  function KeywordArgs(parts: seq<string>): (r: Result<ImageSpec, Error>)
    ensures r.Ok? ==> forall i :: 0 <= i < |parts| ==> Accepted(parts[i])
    ensures (forall i :: 0 <= i < |parts| ==> Accepted(parts[i])) ==> r.Ok?
    ensures (exists i :: 0 <= i < |parts| && KeyValue(parts[i]).Err?) ==>
              exists i :: && 0 <= i < |parts| && KeyValue(parts[i]) == Err(r.error)
                          && forall j :: 0 <= j < i ==> KeyValue(parts[j]).Ok?
    ensures r.Err? && (forall i :: 0 <= i < |parts| ==> KeyValue(parts[i]).Ok?) ==>
              && r.error.UnknownKey? && r.error.key !in Keywords
              && exists i :: 0 <= i < |parts| && KeyValue(parts[i]).value.0 == r.error.key
    ensures r.Ok? ==> forall k :: k in Keywords ==>
              (Field(r.value, k).Some? <==> exists i :: 0 <= i < |parts| && KeyValue(parts[i]).value.0 == k)
    ensures r.Ok? ==> forall i :: LastOfKey(parts, i) ==> Field(r.value, KeyValue(parts[i]).value.0) == Some(KeyValue(parts[i]).value.1)
  {
    var kvs := KeyValues(parts);
    if kvs.Err? then
      KeyValuesRejects(parts);
      Err(kvs.error)
    else
      ParsedAccepted(parts, kvs.value);
      ParsedPresent(parts, kvs.value);
      match FirstUnknown(FromPairs(kvs.value))
      case Some(k) => Err(UnknownKey(k))
      case None =>
        ParsedLast(parts, kvs.value);
        Ok(SpecOf(FromPairs(kvs.value)))
  }

  /** One `--image_spec` value: `;`-separated parts made into keyword arguments. */
  function ParseImageSpec(spec: string): Result<ImageSpec, Error> {
    KeywordArgs(Split(spec, ';'))
  }

  /** A malformed part leaves a part that is not accepted. */
  lemma KeyValuesRejects(parts: seq<string>)
    requires KeyValues(parts).Err?
    ensures !forall i :: 0 <= i < |parts| ==> Accepted(parts[i])
    ensures !forall i :: 0 <= i < |parts| ==> KeyValue(parts[i]).Ok?
  {
    var i :| 0 <= i < |parts| && KeyValue(parts[i]) == Err(KeyValues(parts).error);
    assert !Accepted(parts[i]);
  }

  /** Every part is accepted exactly when the dict built from the parts' pairs
      `kvs` has no unknown key; an unknown key is one some part names. */
  lemma ParsedAccepted(parts: seq<string>, kvs: seq<(string, string)>)
    requires |kvs| == |parts|
    requires forall i :: 0 <= i < |parts| ==> KeyValue(parts[i]) == Ok(kvs[i])
    ensures (forall i :: 0 <= i < |parts| ==> Accepted(parts[i])) <==> FirstUnknown(FromPairs(kvs)).None?
    ensures FirstUnknown(FromPairs(kvs)).Some? ==>
              exists i :: 0 <= i < |parts| && KeyValue(parts[i]).value.0 == FirstUnknown(FromPairs(kvs)).value
  {
    var d := FromPairs(kvs);
    assert forall i :: 0 <= i < |parts| ==> (Accepted(parts[i]) <==> kvs[i].0 in Keywords);
    KeysWithin(kvs, Keywords);
    KeysWithin(d, Keywords);
    if FirstUnknown(d).Some? {
      var i :| 0 <= i < |kvs| && kvs[i].0 == FirstUnknown(d).value;
      assert KeyValue(parts[i]).value.0 == kvs[i].0;
    }
  }

  /** A keyword is present in the dict built from the parts' pairs `kvs`
      exactly when some part names it. */
  lemma ParsedPresent(parts: seq<string>, kvs: seq<(string, string)>)
    requires |kvs| == |parts|
    requires forall i :: 0 <= i < |parts| ==> KeyValue(parts[i]) == Ok(kvs[i])
    ensures forall k :: k in Keywords ==>
              (Field(SpecOf(FromPairs(kvs)), k).Some? <==> exists i :: 0 <= i < |parts| && KeyValue(parts[i]).value.0 == k)
  {
    var d := FromPairs(kvs);
    forall k | k in Keywords
      ensures Field(SpecOf(d), k).Some? <==> exists i :: 0 <= i < |parts| && KeyValue(parts[i]).value.0 == k
    {
      GetKeys(d, k);
      if k in Keys(kvs) {
        var i :| 0 <= i < |kvs| && kvs[i].0 == k;
        assert KeyValue(parts[i]).value.0 == k;
      }
      if exists i :: 0 <= i < |parts| && KeyValue(parts[i]).value.0 == k {
        var i :| 0 <= i < |parts| && KeyValue(parts[i]).value.0 == k;
        assert kvs[i].0 in Keys(kvs);
      }
    }
  }

  /** A keyword holds the value of the last part naming it. */
  lemma ParsedLast(parts: seq<string>, kvs: seq<(string, string)>)
    requires |kvs| == |parts|
    requires forall i :: 0 <= i < |parts| ==> KeyValue(parts[i]) == Ok(kvs[i])
    requires forall i :: 0 <= i < |parts| ==> Accepted(parts[i])
    ensures forall i :: LastOfKey(parts, i) ==>
              Field(SpecOf(FromPairs(kvs)), KeyValue(parts[i]).value.0) == Some(KeyValue(parts[i]).value.1)
  {
    forall i | LastOfKey(parts, i)
      ensures Field(SpecOf(FromPairs(kvs)), KeyValue(parts[i]).value.0) == Some(KeyValue(parts[i]).value.1)
    {
      assert KeyValue(parts[i]).value == kvs[i];
      assert Accepted(parts[i]);
      forall j | i < j < |kvs| ensures kvs[j].0 != kvs[i].0 {
        assert KeyValue(parts[j]).value == kvs[j];
      }
      FromPairsLastWins(kvs, i);
    }
  }

  /** Each entry written as `key=value`. */
  function EntryTexts(entries: seq<(string, string)>): seq<string> {
    seq(|entries|, i requires 0 <= i < |entries| => entries[i].0 + "=" + entries[i].1)
  }

  /** The `--image_spec` text for a list of keyword entries: `key=value`
      joined by `;`. */
  function Format(entries: seq<(string, string)>): string {
    Join(EntryTexts(entries), ';')
  }

  /** Entries whose keys and values hold neither separator. */
  predicate PlainEntries(entries: seq<(string, string)>) {
    forall i :: 0 <= i < |entries| ==>
      ';' !in entries[i].0 && '=' !in entries[i].0 && ';' !in entries[i].1 && '=' !in entries[i].1
  }

  /** The keywords hold neither separator. */
  lemma KeywordsPlain(entries: seq<(string, string)>)
    requires forall i :: 0 <= i < |entries| ==> entries[i].0 in Keywords
    requires forall i :: 0 <= i < |entries| ==> ';' !in entries[i].1 && '=' !in entries[i].1
    ensures PlainEntries(entries)
  {
  }

  /** `k=v` with no `=` in `k` or `v` is read back as the pair `(k, v)`. */
  lemma KeyValueOfEntry(k: string, v: string)
    requires '=' !in k && '=' !in v
    requires ';' !in k && ';' !in v
    ensures KeyValue(k + "=" + v) == Ok((k, v))
    ensures ';' !in k + "=" + v
  {
    assert k + "=" + v == k + ['='] + v;
    SplitAtSeparator(k, '=', v);
    SplitNoSeparator(v, '=');
  }

  /** The text of plain entries splits back into the entries. */
  lemma SplitFormat(entries: seq<(string, string)>)
    requires |entries| >= 1
    requires PlainEntries(entries)
    ensures KeyValues(Split(Format(entries), ';')) == Ok(entries)
  {
    var parts := EntryTexts(entries);
    forall i | 0 <= i < |parts| ensures ';' !in parts[i] && KeyValue(parts[i]) == Ok(entries[i]) {
      KeyValueOfEntry(entries[i].0, entries[i].1);
    }
    SplitJoin(parts, ';');
    var kvs := KeyValues(parts);
    assert kvs.Ok?;
    assert forall i :: 0 <= i < |parts| ==> Ok(kvs.value[i]) == KeyValue(parts[i]) == Ok(entries[i]);
    assert kvs.value == entries;
  }

  /** Parsing the text of distinct keyword entries, none of whose values holds
      `;` or `=`, gives each keyword the value its entry holds and leaves the
      other keywords absent. */
  lemma {:induction false} ParseFormat(entries: seq<(string, string)>)
    requires |entries| >= 1
    requires DistinctKeys(entries)
    requires forall i :: 0 <= i < |entries| ==> entries[i].0 in Keywords
    requires forall i :: 0 <= i < |entries| ==> ';' !in entries[i].1 && '=' !in entries[i].1
    ensures ParseImageSpec(Format(entries)) == Ok(SpecOf(entries))
  {
    KeywordsPlain(entries);
    SplitFormat(entries);
    FromPairsDistinct(entries);
  }

  /** One iteration of the loop in `main`: parse the spec, then publish it. */
  function PublishOne(names: Naming, disk: Disk, pusher: Pusher, spec: string): Result<(Tag, string), Error> {
    match ParseImageSpec(spec)
    case Err(e) => Err(e)
    case Ok(s) => Publish(names, disk, pusher, s)
  }

  /** PublishOne as the step the loop in `main` takes per spec. */
  function PublishStep(names: Naming, disk: Disk, pusher: Pusher): string -> Result<(Tag, string), Error> {
    s => PublishOne(names, disk, pusher, s)
  }

  /** The loop in `main`, for a publishing step `publish` (PublishOne in the
      run): each answer is written into the map as soon as it is published;
      the first failure aborts. */
  function PublishSpecs(publish: string -> Result<(Tag, string), Error>, specs: seq<string>, m: Overrides): (r: Result<Overrides, Error>)
    ensures r.Ok? <==> forall i :: 0 <= i < |specs| ==> publish(specs[i]).Ok?
    ensures r.Err? ==> exists i :: && 0 <= i < |specs| && publish(specs[i]) == Err(r.error)
                                   && forall j :: 0 <= j < i ==> publish(specs[j]).Ok?
  {
    if specs == [] then Ok(m)
    else
      match publish(specs[0])
      case Err(e) => Err(e)
      case Ok(td) =>
        var r := PublishSpecs(publish, specs[1..], m[td.0 := td.1]);
        assert forall i :: 0 < i < |specs| ==> specs[i] == specs[1..][i - 1];
        if r.Err? then
          var i :| && 0 <= i < |specs[1..]| && publish(specs[1..][i]) == Err(r.error)
                   && forall j :: 0 <= j < i ==> publish(specs[1..][j]).Ok?;
          assert publish(specs[i + 1]) == Err(r.error);
          r
        else r
  }

  /** Walk the documents one after another, sharing the map. */
  function WalkDocs(names: Naming, reg: Registry, docs: seq<Node>, m: Overrides): (r: (seq<Node>, Overrides))
    ensures |r.0| == |docs|
  {
    if docs == [] then ([], m)
    else
      var w := WalkCached(names, reg, docs[0], m);
      var rest := WalkDocs(names, reg, docs[1..], w.1);
      ([w.0] + rest.0, rest.1)
  }

  /** `main`: publish everything, then resolve every document. */
  function Run(names: Naming, disk: Disk, pusher: Pusher, reg: Registry, specs: seq<string>, docs: seq<Node>): (r: Result<seq<Node>, Error>)
    ensures r.Ok? <==> forall i :: 0 <= i < |specs| ==> PublishOne(names, disk, pusher, specs[i]).Ok?
    ensures r.Err? ==> exists i :: && 0 <= i < |specs| && PublishOne(names, disk, pusher, specs[i]) == Err(r.error)
                                   && forall j :: 0 <= j < i ==> PublishOne(names, disk, pusher, specs[j]).Ok?
    ensures r.Ok? ==> |r.value| == |docs|
  {
    match PublishSpecs(PublishStep(names, disk, pusher), specs, map[])
    case Err(e) => Err(e)
    case Ok(m) => Ok(WalkDocs(names, reg, docs, m).0)
  }

  /** After the loop, the map holds every published tag; a tag published by
      several specs holds the answer of the LAST of them; other entries are
      untouched. */
  lemma {:induction false} PublishSpecsInstalls(publish: string -> Result<(Tag, string), Error>, specs: seq<string>, m: Overrides)
    requires PublishSpecs(publish, specs, m).Ok?
    ensures forall i :: 0 <= i < |specs| ==> publish(specs[i]).Ok?
    ensures var m' := PublishSpecs(publish, specs, m).value;
            && m'.Keys == m.Keys + (set i | 0 <= i < |specs| :: publish(specs[i]).value.0)
            && (forall t :: t in m && (forall i :: 0 <= i < |specs| ==> publish(specs[i]).value.0 != t) ==> m'[t] == m[t])
  {
    if specs != [] {
      var td := publish(specs[0]).value;
      PublishSpecsInstalls(publish, specs[1..], m[td.0 := td.1]);
      forall i | 0 <= i < |specs| ensures publish(specs[i]).Ok? {
        if i > 0 { assert specs[i] == specs[1..][i - 1]; }
      }
      var tags := set i | 0 <= i < |specs| :: publish(specs[i]).value.0;
      var rest := set i | 0 <= i < |specs[1..]| :: publish(specs[1..][i]).value.0;
      assert tags == {td.0} + rest by {
        forall t | t in tags ensures t in {td.0} + rest {
          var i :| 0 <= i < |specs| && publish(specs[i]).value.0 == t;
          if i > 0 { assert specs[i] == specs[1..][i - 1]; }
        }
        forall t | t in rest ensures t in tags {
          var i :| 0 <= i < |specs[1..]| && publish(specs[1..][i]).value.0 == t;
          assert specs[1..][i] == specs[i + 1];
        }
      }
      forall t | t in m && (forall i :: 0 <= i < |specs| ==> publish(specs[i]).value.0 != t)
        ensures PublishSpecs(publish, specs, m).value[t] == m[t]
      {
        assert publish(specs[0]).value.0 != t;
        forall i | 0 <= i < |specs[1..]| ensures publish(specs[1..][i]).value.0 != t {
          assert specs[1..][i] == specs[i + 1];
        }
      }
    }
  }

  /** The answer of spec `i` survives unless a later spec publishes the same tag. */
  lemma {:induction false} PublishSpecsLastWins(publish: string -> Result<(Tag, string), Error>, specs: seq<string>, m: Overrides, i: nat)
    requires PublishSpecs(publish, specs, m).Ok?
    requires i < |specs|
    requires publish(specs[i]).Ok?
    requires forall j :: i < j < |specs| ==>
      publish(specs[j]).Err? || publish(specs[j]).value.0 != publish(specs[i]).value.0
    ensures var td := publish(specs[i]).value;
            var m' := PublishSpecs(publish, specs, m).value;
            td.0 in m' && m'[td.0] == td.1
  {
    var td := publish(specs[0]).value;
    var m1 := m[td.0 := td.1];
    if i == 0 {
      PublishSpecsInstalls(publish, specs[1..], m1);
      forall j | 0 <= j < |specs[1..]| ensures publish(specs[1..][j]).value.0 != td.0 {
        assert specs[1..][j] == specs[j + 1];
      }
    } else {
      assert specs[1..][i - 1] == specs[i];
      forall j | i - 1 < j < |specs[1..]|
        ensures publish(specs[1..][j]).Err? || publish(specs[1..][j]).value.0 != publish(specs[i]).value.0
      {
        assert specs[1..][j] == specs[j + 1];
      }
      PublishSpecsLastWins(publish, specs[1..], m1, i - 1);
    }
  }

  /** A failing spec aborts the run: there is no output at all. */
  lemma {:induction false} PublishFailureAborts(names: Naming, disk: Disk, pusher: Pusher, reg: Registry, specs: seq<string>, docs: seq<Node>, i: nat)
    requires i < |specs|
    requires PublishOne(names, disk, pusher, specs[i]).Err?
    ensures Run(names, disk, pusher, reg, specs, docs).Err?
  {
    PublishSpecsFails(PublishStep(names, disk, pusher), specs, map[], i);
  }

  lemma {:induction false} PublishSpecsFails(publish: string -> Result<(Tag, string), Error>, specs: seq<string>, m: Overrides, i: nat)
    requires i < |specs|
    requires publish(specs[i]).Err?
    ensures PublishSpecs(publish, specs, m).Err?
  {
    if i > 0 && publish(specs[0]).Ok? {
      var td := publish(specs[0]).value;
      assert specs[1..][i - 1] == specs[i];
      PublishSpecsFails(publish, specs[1..], m[td.0 := td.1], i - 1);
    }
  }

  /** Sharing the map across documents changes no document: each one comes out
      as the pure walk with "map entry, else registry" fixed at the start. */
  lemma {:induction false} WalkDocsIsWalk(names: Naming, reg: Registry, docs: seq<Node>, m: Overrides, f: Tag -> Result<string, Error>)
    requires forall t :: f(t) == Lookup(names, reg, m, t)
    ensures forall i :: 0 <= i < |docs| ==> WalkDocs(names, reg, docs, m).0[i] == Walk(names.parseTag, f, docs[i])
  {
    if docs != [] {
      var w := WalkCached(names, reg, docs[0], m);
      WalkCachedIsWalk(names, reg, docs[0], m, f);
      ExtendsTransparent(names, reg, docs[0], m, w.1);
      WalkDocsIsWalk(names, reg, docs[1..], w.1, f);
      var r := WalkDocs(names, reg, docs, m).0;
      forall i | 0 <= i < |docs| ensures r[i] == Walk(names.parseTag, f, docs[i]) {
        if i > 0 { assert docs[1..][i - 1] == docs[i]; }
      }
    }
  }

  /** Once every spec is published the run cannot fail: each document comes out
      fully walked, published tags resolving to their published digests ahead
      of any registry lookup, and unresolvable strings left as they were. */
  lemma RunResolves(names: Naming, disk: Disk, pusher: Pusher, reg: Registry, specs: seq<string>, docs: seq<Node>)
    requires forall i :: 0 <= i < |specs| ==> PublishOne(names, disk, pusher, specs[i]).Ok?
    ensures Run(names, disk, pusher, reg, specs, docs).Ok?
    ensures |Run(names, disk, pusher, reg, specs, docs).value| == |docs|
    ensures var m := PublishSpecs(PublishStep(names, disk, pusher), specs, map[]).value;
            forall i :: 0 <= i < |docs| ==>
              Run(names, disk, pusher, reg, specs, docs).value[i] == Walk(names.parseTag, t => Lookup(names, reg, m, t), docs[i])
  {
    var m := PublishSpecs(PublishStep(names, disk, pusher), specs, map[]).value;
    WalkDocsIsWalk(names, reg, docs, m, t => Lookup(names, reg, m, t));
  }

  /** The program as written is `Run` on `AsWrittenRegistry(reg)`: a published
      tag still resolves to its published digest, but every other tag goes to
      the as-written registry lookup, so a tag without a v2.2 manifest hits the
      unbound `v2_image` and its string is left as it was. */
  lemma RunAsWritten(names: Naming, disk: Disk, pusher: Pusher, reg: Registry, specs: seq<string>, docs: seq<Node>)
    requires forall i :: 0 <= i < |specs| ==> PublishOne(names, disk, pusher, specs[i]).Ok?
    ensures Run(names, disk, pusher, AsWrittenRegistry(reg), specs, docs).Ok?
    ensures var m := PublishSpecs(PublishStep(names, disk, pusher), specs, map[]).value;
            forall i :: 0 <= i < |docs| ==>
              Run(names, disk, pusher, AsWrittenRegistry(reg), specs, docs).value[i]
                == Walk(names.parseTag, t => if t in m then Ok(m[t]) else FromRegistryAsWritten(names, reg, t), docs[i])
  {
    var m := PublishSpecs(PublishStep(names, disk, pusher), specs, map[]).value;
    WalkDocsAsWritten(names, reg, docs, m);
  }

  /** The documents walked against the as-written registry: published tags
      first, then the as-written lookup. */
  lemma WalkDocsAsWritten(names: Naming, reg: Registry, docs: seq<Node>, m: Overrides)
    ensures forall i :: 0 <= i < |docs| ==>
      WalkDocs(names, AsWrittenRegistry(reg), docs, m).0[i]
        == Walk(names.parseTag, t => if t in m then Ok(m[t]) else FromRegistryAsWritten(names, reg, t), docs[i])
  {
    var g := t => if t in m then Ok(m[t]) else FromRegistryAsWritten(names, reg, t);
    forall t ensures g(t) == Lookup(names, AsWrittenRegistry(reg), m, t) {
      AsWrittenIsCorrectedOnAsWrittenRegistry(names, reg, t, m);
    }
    WalkDocsIsWalk(names, AsWrittenRegistry(reg), docs, m, g);
  }

  /** The tag of the end-to-end example, and the string naming it. */
  function ExampleTag(): Tag { Tag("gcr.io", "proj/app", "v1") }

  /** docker_name for the example: only the example string parses. */
  function ExampleNames(): Naming {
    Naming(s => if s == "gcr.io/proj/app:v1" then Some(ExampleTag()) else None, s => true,
           (t: Tag) => t.registry + "/" + t.repository)
  }

  /** A registry holding only a v2 manifest for every tag. */
  function ExampleRegistry(): Registry {
    Registry(t => Ok(false), t => Err(RegistryError("no v2.2 manifest")), t => Ok("sha256:abc"))
  }

  /** End to end: with nothing published, a template naming a tag whose
      repository has only a v2 manifest keeps the tag as written, and is
      rewritten to the v2 digest once the fallback is repaired. */
  lemma RunFallbackCounterexample(disk: Disk, pusher: Pusher)
    ensures var docs := [Str("gcr.io/proj/app:v1")];
            && Run(ExampleNames(), disk, pusher, AsWrittenRegistry(ExampleRegistry()), [], docs) == Ok(docs)
            && Run(ExampleNames(), disk, pusher, ExampleRegistry(), [], docs) == Ok([Str("gcr.io/proj/app@sha256:abc")])
  {
    var names, reg, t := ExampleNames(), ExampleRegistry(), ExampleTag();
    var docs := [Str("gcr.io/proj/app:v1")];
    assert Qualified(t, "sha256:abc") == "gcr.io/proj/app@sha256:abc";
    MissFallsBackToV2(names, reg, t, map[], "sha256:abc");
    assert Lookup(names, reg, map[], t) == Ok("gcr.io/proj/app@sha256:abc");
    assert FromRegistryAsWritten(names, reg, t) == Err(UnboundName("v2_image"));
    RunAsWritten(names, disk, pusher, reg, [], docs);
    var w := Run(names, disk, pusher, AsWrittenRegistry(reg), [], docs).value;
    assert w[0] == docs[0];
    assert w == docs;
    RunResolves(names, disk, pusher, reg, [], docs);
    var c := Run(names, disk, pusher, reg, [], docs).value;
    assert c[0] == Str("gcr.io/proj/app@sha256:abc");
    assert c == [Str("gcr.io/proj/app@sha256:abc")];
  }

  /** Publishing keeps the override map fully qualified when every answer
      the publishing step gives is accepted as a Digest. */
  lemma {:induction false} PublishSpecsQualified(names: Naming, publish: string -> Result<(Tag, string), Error>, specs: seq<string>, m: Overrides)
    requires AllQualified(names, m)
    requires forall s :: publish(s).Ok? ==> names.isDigest(publish(s).value.1)
    requires PublishSpecs(publish, specs, m).Ok?
    ensures AllQualified(names, PublishSpecs(publish, specs, m).value)
  {
    if specs != [] {
      var td := publish(specs[0]).value;
      PublishSpecsQualified(names, publish, specs[1..], m[td.0 := td.1]);
    }
  }

  /** Every answer of one publishing step is accepted as a Digest. */
  lemma PublishOneQualified(names: Naming, disk: Disk, pusher: Pusher, spec: string)
    ensures PublishOne(names, disk, pusher, spec).Ok? ==> names.isDigest(PublishOne(names, disk, pusher, spec).value.1)
  {
  }

  /** Walking the documents keeps the override map fully qualified. */
  lemma {:induction false} WalkDocsQualified(names: Naming, reg: Registry, docs: seq<Node>, m: Overrides)
    requires AllQualified(names, m)
    ensures AllQualified(names, WalkDocs(names, reg, docs, m).1)
  {
    if docs != [] {
      var w := WalkCached(names, reg, docs[0], m);
      WalkCachedQualified(names, reg, docs[0], m);
      WalkDocsQualified(names, reg, docs[1..], w.1);
    }
  }

  /** Over a whole run every digest in the override map, published or looked
      up, is fully qualified. */
  lemma RunCacheQualified(names: Naming, disk: Disk, pusher: Pusher, reg: Registry, specs: seq<string>, docs: seq<Node>)
    requires forall i :: 0 <= i < |specs| ==> PublishOne(names, disk, pusher, specs[i]).Ok?
    ensures var m := PublishSpecs(PublishStep(names, disk, pusher), specs, map[]).value;
            && AllQualified(names, m)
            && AllQualified(names, WalkDocs(names, reg, docs, m).1)
  {
    var m := PublishSpecs(PublishStep(names, disk, pusher), specs, map[]).value;
    forall s ensures PublishStep(names, disk, pusher)(s).Ok? ==> names.isDigest(PublishStep(names, disk, pusher)(s).value.1) {
      PublishOneQualified(names, disk, pusher, s);
    }
    PublishSpecsQualified(names, PublishStep(names, disk, pusher), specs, map[]);
    WalkDocsQualified(names, reg, docs, m);
  }
}
