/** `Publish` (k8s/resolver.py): check the keyword arguments of one image
    spec, read its config, pair its digests with its layers, push the image and
    answer with the tag and the digest reference the push produced. */
module Publisher {
  import opened Wrappers
  import opened PyStr
  import opened Names

  /** The keyword arguments of `Publish`; an absent keyword is `None`. */
  datatype ImageSpec = ImageSpec(
    name: Option<string>,
    tarball: Option<string>,
    config: Option<string>,
    digest: Option<string>,
    layer: Option<string>)

  /** What `v2_2_image.FromDisk` is built from: the config blob, the
      (digest, layer path) pairs, and the legacy base tarball argument. */
  datatype Image = Image(config: string, layers: seq<(string, string)>, legacyBase: Option<string>)

  /** Local files and the local image code. A read that fails is `None`. */
  datatype Disk = Disk(
    read: string -> Option<string>,          // `open(path).read()`
    tarballConfig: string -> Option<string>, // `FromTarball(path).config_file()`
    imageDigest: Image -> string)            // `FromDisk(...).digest()`

  /** The push session: credentials, transport and upload in one step. */
  datatype Pusher = Pusher(upload: (Tag, Image) -> Outcome<string>)

  /** The checked arguments of lines 104-128: the name, the config blob, the
      digest and layer lists, and the tarball passed on as legacy base. */
  datatype Plan = Plan(name: string, config: string, digests: seq<string>, layers: seq<string>, legacyBase: Option<string>)

  /** Python's `zip`: pairs in order, as many as the shorter list has. */
  function Zip<A, B>(a: seq<A>, b: seq<B>): (r: seq<(A, B)>)
    ensures |r| == if |a| <= |b| then |a| else |b|
    ensures forall i :: 0 <= i < |r| ==> r[i] == (a[i], b[i])
  {
    if a == [] || b == [] then [] else [(a[0], b[0])] + Zip(a[1..], b[1..])
  }

  function Firsts<A, B>(ps: seq<(A, B)>): seq<A> {
    seq(|ps|, i requires 0 <= i < |ps| => ps[i].0)
  }

  function Seconds<A, B>(ps: seq<(A, B)>): seq<B> {
    seq(|ps|, i requires 0 <= i < |ps| => ps[i].1)
  }

  /** Zipping lists of equal length loses nothing: unzipping gives them back. */
  lemma ZipUnzip<A, B>(a: seq<A>, b: seq<B>)
    requires |a| == |b|
    ensures Firsts(Zip(a, b)) == a && Seconds(Zip(a, b)) == b
  {
  }

  /** `arg.split(',')`, which raises AttributeError when `arg` is `None`. */
  function SplitArg(arg: Option<string>): (r: Result<seq<string>, Error>)
    ensures r.Ok? <==> arg.Some?
    ensures r.Ok? ==> Join(r.value, ',') == arg.value
  {
    match arg
    case None => Err(NoneSplit)
    case Some(s) =>
      JoinSplit(s, ',');
      Ok(Split(s, ','))
  }

  /** Lines 104-128, which fail before any registry access: a missing name,
      then layers or digests without a config, then (after reading the config,
      or the tarball's config when there is no config) a missing source, then
      digest and layer lists of different lengths. */
  function Validate(disk: Disk, spec: ImageSpec): (r: Result<Plan, Error>)
    ensures !Truthy(spec.name) <==> r == Err(MissingName)
    ensures (Truthy(spec.name) && !Truthy(spec.config) && (Truthy(spec.layer) || Truthy(spec.digest)))
              <==> (Truthy(spec.name) && r == Err(LayerWithoutConfig(spec.name.value)))
    ensures (Truthy(spec.name) && !Truthy(spec.config) && !Truthy(spec.tarball) && !Truthy(spec.layer) && !Truthy(spec.digest))
              <==> (Truthy(spec.name) && r == Err(MissingSource(spec.name.value)))
    ensures r.Ok? ==> && Truthy(spec.name) && r.value.name == spec.name.value
                      && (Truthy(spec.config) || Truthy(spec.tarball))
                      && r.value.legacyBase == spec.tarball
                      && |r.value.digests| == |r.value.layers|
    ensures r.Ok? && Truthy(spec.config) ==> disk.read(spec.config.value) == Some(r.value.config)
    ensures r.Ok? && !Truthy(spec.config) ==> disk.tarballConfig(spec.tarball.value) == Some(r.value.config)
    ensures r.Ok? && (Truthy(spec.digest) || Truthy(spec.layer)) ==>
              spec.digest.Some? && spec.layer.Some? &&
              Join(r.value.digests, ',') == spec.digest.value && Join(r.value.layers, ',') == spec.layer.value
    ensures r.Ok? && !Truthy(spec.digest) && !Truthy(spec.layer) ==> r.value.digests == [] && r.value.layers == []
    ensures r.Ok? && (Truthy(spec.digest) || Truthy(spec.layer)) ==>
              r.value.digests == Split(spec.digest.value, ',') && r.value.layers == Split(spec.layer.value, ',')
    ensures r.Ok? <==>
      && Truthy(spec.name)
      && (Truthy(spec.config) || (!Truthy(spec.layer) && !Truthy(spec.digest)))
      && (if Truthy(spec.config) then disk.read(spec.config.value).Some?
          else Truthy(spec.tarball) && disk.tarballConfig(spec.tarball.value).Some?)
      && ((Truthy(spec.digest) || Truthy(spec.layer)) ==>
            spec.digest.Some? && spec.layer.Some? &&
            |Split(spec.digest.value, ',')| == |Split(spec.layer.value, ',')|)
    ensures (&& Truthy(spec.name) && Truthy(spec.config) && disk.read(spec.config.value).Some?
             && spec.digest.Some? && spec.layer.Some?
             && (Truthy(spec.digest) || Truthy(spec.layer))
             && |Split(spec.digest.value, ',')| != |Split(spec.layer.value, ',')|)
            <==> (Truthy(spec.name) && r == Err(LengthMismatch(spec.name.value)))
    ensures (Truthy(spec.name) && Truthy(spec.config) && disk.read(spec.config.value).Some?
             && (Truthy(spec.digest) || Truthy(spec.layer)) && (spec.digest.None? || spec.layer.None?))
            <==> (Truthy(spec.name) && r == Err(NoneSplit))
  {
    if !Truthy(spec.name) then Err(MissingName)
    else
      var name := spec.name.value;
      if !Truthy(spec.config) && (Truthy(spec.layer) || Truthy(spec.digest)) then Err(LayerWithoutConfig(name))
      else
        var config :=
          if Truthy(spec.config) then
            (match disk.read(spec.config.value)
             case Some(c) => Ok(c)
             case None => Err(Io(spec.config.value)))
          else if Truthy(spec.tarball) then
            (match disk.tarballConfig(spec.tarball.value)
             case Some(c) => Ok(c)
             case None => Err(Io(spec.tarball.value)))
          else Err(MissingSource(name));
        if config.Err? then Err(config.error)
        else if Truthy(spec.digest) || Truthy(spec.layer) then
          var digests := SplitArg(spec.digest);
          var layers := SplitArg(spec.layer);
          if digests.Err? then Err(digests.error)
          else if layers.Err? then Err(layers.error)
          else if |digests.value| != |layers.value| then Err(LengthMismatch(name))
          else Ok(Plan(name, config.value, digests.value, layers.value, spec.tarball))
        else Ok(Plan(name, config.value, [], [], spec.tarball))
  }

  /** The image `FromDisk` assembles from a plan: the digest/layer pairs in order. */
  function ImageOf(plan: Plan): Image {
    Image(plan.config, Zip(plan.digests, plan.layers), plan.legacyBase)
  }

  /** `Publish(transport, **spec)`: validate, parse the name as a tag, push,
      and answer `(tag, repository@digest)` for the pushed image's digest. */
  function Publish(names: Naming, disk: Disk, pusher: Pusher, spec: ImageSpec): (r: Result<(Tag, string), Error>)
    ensures Validate(disk, spec).Err? ==> r == Err(Validate(disk, spec).error)
    ensures r.Ok? ==>
      && Validate(disk, spec).Ok?
      && names.parseTag(spec.name.value) == Some(r.value.0)
      && pusher.upload(r.value.0, ImageOf(Validate(disk, spec).value)) == Pass
      && r.value.1 == names.asRepository(r.value.0) + "@" + disk.imageDigest(ImageOf(Validate(disk, spec).value))
      && names.isDigest(r.value.1)
    ensures var v := Validate(disk, spec);
            v.Ok? && names.parseTag(v.value.name).None? ==> r == Err(BadName(v.value.name))
    ensures var v := Validate(disk, spec);
            v.Ok? && names.parseTag(v.value.name).Some? ==>
              var tag := names.parseTag(v.value.name).value;
              var image := ImageOf(v.value);
              && (pusher.upload(tag, image).Fail? ==> r == Err(RegistryError(pusher.upload(tag, image).error)))
              && var d := names.asRepository(tag) + "@" + disk.imageDigest(image);
                 (pusher.upload(tag, image) == Pass && names.isDigest(d) ==> r == Ok((tag, d)))
  {
    match Validate(disk, spec)
    case Err(e) => Err(e)
    case Ok(plan) =>
      match names.parseTag(plan.name)
      case None => Err(BadName(plan.name))
      case Some(tag) =>
        var image := ImageOf(plan);
        match pusher.upload(tag, image)
        case Fail(reason) => Err(RegistryError(reason))
        case Pass =>
          var d := names.asRepository(tag) + "@" + disk.imageDigest(image);
          if names.isDigest(d) then Ok((tag, d)) else Err(BadName(d))
  }

  /** A spec that fails validation fails the same way whatever docker_name
      and the registry would do: no name is parsed and nothing is pushed. */
  lemma ValidationBeforeNetwork(names: Naming, names': Naming, disk: Disk, pusher: Pusher, pusher': Pusher, spec: ImageSpec)
    requires Validate(disk, spec).Err?
    ensures Publish(names, disk, pusher, spec) == Publish(names', disk, pusher', spec)
  {
  }

  /** A missing name is reported before anything else, files included. */
  lemma MissingNameFirst(names: Naming, disk: Disk, pusher: Pusher, spec: ImageSpec)
    requires !Truthy(spec.name)
    ensures Publish(names, disk, pusher, spec) == Err(MissingName)
  {
  }

  /** With both `config` and `tarball` given, the config file is the one read;
      the tarball still goes along as the legacy base. */
  lemma ConfigWinsOverTarball(disk: Disk, spec: ImageSpec)
    requires Truthy(spec.name) && Truthy(spec.config) && Truthy(spec.tarball)
    requires Validate(disk, spec).Ok?
    ensures Validate(disk, spec).value.config == disk.read(spec.config.value).value
    ensures Validate(disk, spec).value.legacyBase == spec.tarball
  {
  }

  /** The pushed layers pair the i-th digest with the i-th layer, and the
      pairs give back both comma-separated arguments unchanged. */
  lemma PushedPairs(disk: Disk, spec: ImageSpec)
    requires Validate(disk, spec).Ok?
    requires Truthy(spec.digest) || Truthy(spec.layer)
    ensures var pairs := ImageOf(Validate(disk, spec).value).layers;
            && |pairs| == |Split(spec.digest.value, ',')| == |Split(spec.layer.value, ',')|
            && (forall i :: 0 <= i < |pairs| ==> pairs[i] == (Split(spec.digest.value, ',')[i], Split(spec.layer.value, ',')[i]))
            && Join(Firsts(pairs), ',') == spec.digest.value
            && Join(Seconds(pairs), ',') == spec.layer.value
  {
    var plan := Validate(disk, spec).value;
    ZipUnzip(plan.digests, plan.layers);
  }

  /** `layer=a,b` with `digest=x` is rejected as a length mismatch, before any
      name parsing or push. */
  lemma MismatchRejected(names: Naming, disk: Disk, pusher: Pusher, name: string, config: string)
    requires name != "" && config != ""
    requires disk.read(config).Some?
    ensures Publish(names, disk, pusher, ImageSpec(Some(name), None, Some(config), Some("x"), Some("a,b")))
              == Err(LengthMismatch(name))
  {
    SplitNoSeparator("x", ',');
    SplitNoSeparator("a", ',');
    SplitNoSeparator("b", ',');
    assert "a,b" == "a" + [','] + "b";
    SplitAtSeparator("a", ',', "b");
  }
}
