/** The files of a data directory by their paths. */
module DataTree {
  import opened CertIndex
  import opened ScepState
  import opened Wrappers

  /** The components of a slash-separated path. */
  type Path = seq<string>

  /** File contents, as what they parse to. */
  datatype Data = Raw(bytes: string) | JournalText(st: State) | IndexText(recs: seq<Record>) | PemText(cert: Cert)

  type Files = map<Path, Data>

  function At(files: Files, v: Path): Option<Data> {
    if v in files then Some(files[v]) else None
  }

  /** The files that are left when everything under one name is removed. */
  function Without(files: Files, name: string): Files {
    map v | v in files && !([name] <= v) :: files[v]
  }
}
