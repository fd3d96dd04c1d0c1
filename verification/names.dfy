/** Image names and the errors the resolver can raise. The tag and digest
    grammars belong to containerregistry's docker_name module, which is not
    part of this model: its parser and formatter enter as the oracle record
    `Naming`. */
module Names {
  import opened Wrappers

  /** A mutable image reference `registry/repository:tag`. */
  datatype Tag = Tag(registry: string, repository: string, tag: string)

  /** The exceptions `Publish`, `TagToDigest` and `main` can raise, each named after its cause. */
  datatype Error =
    | MissingName                      // Publish without a `name`
    | LayerWithoutConfig(name: string) // `layer`/`digest` without `config`
    | MissingSource(name: string)      // neither `config` nor `tarball`
    | LengthMismatch(name: string)     // `digest` and `layer` counts differ
    | NoneSplit                        // AttributeError: `None.split`
    | BadName(text: string)            // docker_name rejects a tag or digest
    | UnboundName(ident: string)       // NameError for an identifier never imported
    | MalformedPart(part: string)      // an image-spec part is not `key=value`
    | UnknownKey(key: string)          // Publish called with an unknown keyword
    | Io(path: string)                 // a file could not be read
    | RegistryError(reason: string)    // network, auth or protocol failure

  /** docker_name as seen by the resolver. */
  datatype Naming = Naming(
    parseTag: string -> Option<Tag>,  // `Tag(s)`, None where it raises
    isDigest: string -> bool,         // `Digest(s)` accepts `s`
    asRepository: Tag -> string)      // `str(tag.as_repository())`

  /** The digest reference TagToDigest builds: `registry/repository@digest`. */
  function Qualified(t: Tag, digest: string): string {
    t.registry + "/" + t.repository + "@" + digest
  }
}
