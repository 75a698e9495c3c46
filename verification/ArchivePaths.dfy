/** Which paths an archive may name, component by component. */
module ArchivePaths {
  import opened CertIndex
  import opened DataTree
  import opened Strings

  import Restore
  import Validator

  // ----- Slash-separated paths (strings are byte strings) -----

  function Parts(p: string): (r: Path)
    ensures r != []
  {
    Split(p, '/')
  }

  /** The elements filepath.Clean keeps of a relative path: no empty ones, no ".", and ".." removes the one before. */
  function CleanParts(v: Path, out: Path): Path
    decreases |v|
  {
    if v == [] then out
    else if v[0] == "" || v[0] == "." then CleanParts(v[1..], out)
    else if v[0] == ".." && out != [] && out[|out| - 1] != ".." then CleanParts(v[1..], out[..|out| - 1])
    else CleanParts(v[1..], out + [v[0]])
  }

  /** filepath.Clean, for a path that does not begin with a slash. */
  function Clean(p: string): string {
    var out := CleanParts(Parts(p), []);
    if out == [] then "." else Join(out, '/')
  }

  /** A name that stays where it is: ".." only behind other "..", nothing empty, no ".". */
  ghost predicate Normal(v: Path) {
    forall k :: 0 <= k < |v| ==>
      && v[k] != "" && v[k] != "." && '/' !in v[k]
      && (v[k] == ".." && k > 0 ==> v[k - 1] == "..")
  }

  lemma {:induction false} CleanPartsAreNormal(v: Path, out: Path)
    requires Normal(out) && forall k :: 0 <= k < |v| ==> '/' !in v[k]
    ensures Normal(CleanParts(v, out))
    decreases |v|
  {
    if v == [] {
    } else if v[0] == "" || v[0] == "." {
      CleanPartsAreNormal(v[1..], out);
    } else if v[0] == ".." && out != [] && out[|out| - 1] != ".." {
      CleanPartsAreNormal(v[1..], out[..|out| - 1]);
    } else {
      CleanPartsAreNormal(v[1..], out + [v[0]]);
    }
  }

  /** What the comparison with the cleaned path buys. */
  lemma CleanPathIsNormal(p: string)
    requires Clean(p) == p && p != "."
    ensures Normal(Parts(p))
  {
    PartsHaveNoSeparator(p, '/');
    CleanPartsAreNormal(Parts(p), []);
    var out := CleanParts(Parts(p), []);
    SplitOfJoin(out, '/');
    PiecesOfPlain(out, '/');
  }

  // ----- Paths an archive may name -----

  const CA_SECRETS: string := "ca-secrets"

  predicate CertFile(name: string, suffix: string) {
    HasSuffix(name, suffix) && ValidSerial(name[..|name| - |suffix|])
  }

  predicate LivePath(v: Path)
    requires v != []
  {
    if v[0] in {"index.json", "templates.json", "scep.json", "devices.json", "definitions.json"} then |v| == 1
    else if v[0] == "auth" then |v| == 2 && v[1] in {"users.json", "session.key", "device.key"}
    else if v[0] == "tls" then |v| == 2 && v[1] in {"server-cert.pem", "server-key.pem"}
    else if v[0] == CA_SECRETS then |v| == 2 && Validator.BackupCaId(v[1])
    else if v[0] == "cas" then |v| == 3 && Validator.BackupCaId(v[1]) && v[2] in {"cert.pem", "key.pem"}
    else v[0] == "certs" && |v| == 2 && (CertFile(v[1], "-cert.pem") || CertFile(v[1], "-key.pem"))
  }

  predicate TrashPath(v: Path, stamp: string -> bool)
    requires v != []
  {
    && |v| >= 3 && stamp(v[1])
    && (v[2] in {"cas", "certs", CA_SECRETS} || Join(v[2..], '/') == "index.json")
    && LivePath(v[2..])
  }

  /** backupPath on components; stamp is the library's reading of a trash timestamp. */
  predicate KnownPath(v: Path, stamp: string -> bool) {
    v != [] && if v[0] == "trash" then TrashPath(v, stamp) else LivePath(v)
  }

  predicate BackupPath(p: string, stamp: string -> bool) {
    && p != "" && |p| <= 256 && '\\' !in p && p[0] != '/' && Clean(p) == p
    && KnownPath(Parts(p), stamp)
  }

  lemma LivePathsArePrefixFree(u: Path, v: Path)
    requires u != [] && v != [] && u <= v && LivePath(u) && LivePath(v)
    ensures u == v
  {
    assert u[0] == v[0];
  }

  /** No accepted path is a directory of another: components of one never begin another's. */
  lemma KnownPathsArePrefixFree(u: Path, v: Path, stamp: string -> bool)
    requires u <= v && KnownPath(u, stamp) && KnownPath(v, stamp)
    ensures u == v
  {
    assert u[0] == v[0];
    if u[0] == "trash" {
      assert u[2..] <= v[2..];
      LivePathsArePrefixFree(u[2..], v[2..]);
      assert u == u[..2] + u[2..] && v == v[..2] + v[2..];
    } else {
      LivePathsArePrefixFree(u, v);
    }
  }

  lemma AcceptedPathsArePrefixFree(p: string, q: string, stamp: string -> bool)
    requires BackupPath(p, stamp) && BackupPath(q, stamp) && Parts(p) <= Parts(q)
    ensures p == q
  {
    KnownPathsArePrefixFree(Parts(p), Parts(q), stamp);
    JoinOfSplit(p, '/');
    JoinOfSplit(q, '/');
  }

  // ----- Exactly which paths -----

  predicate PlainName(s: string) {
    s !in {"", ".", ".."} && '/' !in s && '\\' !in s
  }

  lemma {:induction false} CleanPartsOfPlain(v: Path, out: Path)
    requires forall k :: 0 <= k < |v| ==> PlainName(v[k])
    ensures CleanParts(v, out) == out + v
    decreases |v|
  {
    if v == [] {
    } else {
      CleanPartsOfPlain(v[1..], out + [v[0]]);
      assert out + [v[0]] + v[1..] == out + v;
    }
  }

  /** A path of plain names is its own cleaned form and has those parts. */
  lemma PlainPathIsClean(v: Path)
    requires v != [] && forall k :: 0 <= k < |v| ==> PlainName(v[k])
    ensures var p := Join(v, '/'); Parts(p) == v && Clean(p) == p && p != "" && p[0] != '/' && '\\' !in p
  {
    var p := Join(v, '/');
    forall s | s in v
      ensures PlainName(s)
    {
      var k :| 0 <= k < |v| && v[k] == s;
    }
    SplitOfJoin(v, '/');
    PiecesOfPlain(v, '/');
    CleanPartsOfPlain(v, []);
    assert [] + v == v;
    assert PlainName(v[0]) && p[0] == v[0][0];
    if '\\' in p {
      JoinChars(v, '/', '\\');
    }
  }

  /** The files of a data tree, name by name. */
  ghost predicate LiveFile(v: Path) {
    || v in {["index.json"], ["templates.json"], ["scep.json"], ["devices.json"], ["definitions.json"]}
    || v in {["auth", "users.json"], ["auth", "session.key"], ["auth", "device.key"]}
    || v in {["tls", "server-cert.pem"], ["tls", "server-key.pem"]}
    || (exists id :: CaName(id) && v in {["cas", id, "cert.pem"], ["cas", id, "key.pem"], ["ca-secrets", id]})
    || (exists s :: ValidSerial(s) && v in {["certs", s + "-cert.pem"], ["certs", s + "-key.pem"]})
  }

  ghost predicate CaName(id: string) {
    id == "root" || id == "intermediate" || ValidSerial(id)
  }

  /** Those, and under a deletion's timestamp what a deletion moves and its index. */
  ghost predicate StoreFile(v: Path, stamp: string -> bool) {
    || LiveFile(v)
    || (&& |v| >= 3 && v[0] == "trash" && stamp(v[1]) && v[2] in {"cas", "certs", "ca-secrets", "index.json"}
        && LiveFile(v[2..]))
  }

  lemma LivePathsAreFiles(v: Path)
    requires v != []
    ensures LivePath(v) <==> LiveFile(v)
  {
    if LivePath(v) {
      if v[0] == "cas" {
        assert v == ["cas", v[1], v[2]] && CaName(v[1]);
      } else if v[0] == CA_SECRETS {
        assert v == ["ca-secrets", v[1]] && CaName(v[1]);
      } else if |v| == 1 {
        assert v == [v[0]];
      } else {
        assert v == [v[0], v[1]];
        CertFileName(v[1], "-cert.pem");
        CertFileName(v[1], "-key.pem");
      }
    }
    if s :| ValidSerial(s) && v in {["certs", s + "-cert.pem"], ["certs", s + "-key.pem"]} {
      assert CertFile(v[1], "-cert.pem") || CertFile(v[1], "-key.pem") by {
        assert (s + "-cert.pem")[..|s|] == s && (s + "-key.pem")[..|s|] == s;
      }
    }
  }

  lemma CertFileName(name: string, suffix: string)
    ensures CertFile(name, suffix) ==> exists s :: ValidSerial(s) && name == s + suffix
  {
    if CertFile(name, suffix) {
      assert name == name[..|name| - |suffix|] + suffix;
    }
  }

  lemma KnownPathsAreFiles(v: Path, stamp: string -> bool)
    ensures KnownPath(v, stamp) <==> StoreFile(v, stamp)
  {
    hide LivePath, LiveFile;
    if v != [] {
      LivePathsAreFiles(v);
    }
    if |v| >= 3 {
      LivePathsAreFiles(v[2..]);
      OneName(v[2..]);
    }
    NotLive(v);
  }

  lemma NotLive(v: Path)
    ensures v == [] || v[0] == "trash" ==> !LiveFile(v)
    ensures v != [] && v[0] == "index.json" && LivePath(v) ==> v == ["index.json"]
  {
    assert "trash"[0] != "auth"[0] && "trash"[1] != "tls"[1] && |"trash"| == 5 && |"certs"| == 5 && "certs"[0] == 'c';
  }

  lemma OneName(w: Path)
    requires w != []
    ensures LivePath(w) ==> (Join(w, '/') == "index.json" <==> w[0] == "index.json")
  {
    if |w| > 1 {
      assert Join(w, '/') == w[0] + ['/'] + Join(w[1..], '/');
      assert Join(w, '/')[|w[0]|] == '/';
      assert '/' !in "index.json";
    }
  }

  lemma LiveFilesArePlain(v: Path)
    requires LiveFile(v)
    ensures forall k :: 0 <= k < |v| ==> PlainName(v[k])
  {
    hide PlainName;
    JsonNamesArePlain();
    MoreJsonNamesArePlain();
    KeyNamesArePlain();
    DirNamesArePlain();
    forall s | ValidSerial(s)
      ensures PlainName(s) && PlainName(s + "-cert.pem") && PlainName(s + "-key.pem")
    {
      SerialIsPlain(s);
    }
  }

  lemma JsonNamesArePlain()
    ensures PlainName("index.json") && PlainName("templates.json") && PlainName("scep.json")
  {
  }

  lemma MoreJsonNamesArePlain()
    ensures PlainName("devices.json") && PlainName("definitions.json") && PlainName("users.json")
  {
  }

  lemma KeyNamesArePlain()
    ensures PlainName("session.key") && PlainName("device.key")
    ensures PlainName("server-cert.pem") && PlainName("server-key.pem") && PlainName("cert.pem") && PlainName("key.pem")
  {
  }

  lemma DirNamesArePlain()
    ensures PlainName("auth") && PlainName("tls") && PlainName("cas") && PlainName("certs") && PlainName("ca-secrets")
    ensures PlainName("root") && PlainName("intermediate") && PlainName("trash")
  {
  }

  lemma SerialIsPlain(s: string)
    requires ValidSerial(s)
    ensures PlainName(s) && PlainName(s + "-cert.pem") && PlainName(s + "-key.pem")
  {
    assert s[0] in s && |s + "-key.pem"| > 2 && |s + "-cert.pem"| > 2;
  }

  /** Exactly the paths of files that a store writes are accepted, up to 256 characters. */
  lemma AcceptedPathsAreStoreFiles(p: string, stamp: string -> bool)
    requires forall s :: stamp(s) ==> PlainName(s)
    ensures BackupPath(p, stamp) <==> |p| <= 256 && exists v :: StoreFile(v, stamp) && p == Join(v, '/')
  {
    hide Clean, KnownPath, StoreFile;
    if BackupPath(p, stamp) {
      KnownPathsAreFiles(Parts(p), stamp);
      JoinOfSplit(p, '/');
    }
    if v :| StoreFile(v, stamp) && p == Join(v, '/') {
      StoreFilesArePlain(v, stamp);
      PlainPathIsClean(v);
      KnownPathsAreFiles(v, stamp);
    }
  }

  lemma StoreFilesArePlain(v: Path, stamp: string -> bool)
    requires StoreFile(v, stamp) && forall s :: stamp(s) ==> PlainName(s)
    ensures v != [] && forall k :: 0 <= k < |v| ==> PlainName(v[k])
  {
    hide LiveFile, PlainName;
    NotLive(v);
    DirNamesArePlain();
    if LiveFile(v) {
      LiveFilesArePlain(v);
    } else {
      LiveFilesArePlain(v[2..]);
      forall k | 0 <= k < |v|
        ensures PlainName(v[k])
      {
        if k >= 2 {
          assert v[k] == v[2..][k - 2];
        }
      }
    }
  }

  /** The file name of a component. */
  function RootName(r: Restore.Root): string {
    match r
    case Cas => "cas"
    case Certs => "certs"
    case Auth => "auth"
    case Tls => "tls"
    case Trash => "trash"
    case IndexJson => "index.json"
    case TemplatesJson => "templates.json"
    case ScepJson => "scep.json"
    case DevicesJson => "devices.json"
    case DefinitionsJson => "definitions.json"
    case CaSecrets => CA_SECRETS
  }

  lemma RootNamesDiffer(r: Restore.Root, q: Restore.Root)
    requires RootName(r) == RootName(q)
    ensures r == q
  {
    assert |RootName(r)| == |RootName(q)|;
    assert RootName(Restore.Cas)[1] != RootName(Restore.Tls)[1];
    assert RootName(Restore.IndexJson)[0] != RootName(Restore.CaSecrets)[0];
  }

  lemma KnownPathHasRoot(v: Path, stamp: string -> bool)
    requires KnownPath(v, stamp)
    ensures exists r: Restore.Root :: v[0] == RootName(r)
  {
    assert RootName(Restore.Cas) == "cas" && RootName(Restore.Certs) == "certs" && RootName(Restore.Auth) == "auth";
    assert RootName(Restore.Tls) == "tls" && RootName(Restore.Trash) == "trash";
    assert RootName(Restore.CaSecrets) == CA_SECRETS;
    assert RootName(Restore.IndexJson) == "index.json" && RootName(Restore.TemplatesJson) == "templates.json";
    assert RootName(Restore.ScepJson) == "scep.json" && RootName(Restore.DevicesJson) == "devices.json";
    assert RootName(Restore.DefinitionsJson) == "definitions.json";
  }

  /** An accepted path stays inside the tree, and inside a component that activation swaps. */
  lemma AcceptedPathsStayInside(p: string, stamp: string -> bool)
    requires BackupPath(p, stamp)
    ensures forall k :: 0 <= k < |Parts(p)| ==> Parts(p)[k] != "" && Parts(p)[k] != "." && Parts(p)[k] != ".."
    ensures exists r: Restore.Root :: Parts(p)[0] == RootName(r)
  {
    var v := Parts(p);
    assert p != "." by {
      SplitOfPlain(".", '/');
    }
    CleanPathIsNormal(p);
    KnownPathHasRoot(v, stamp);
    var r: Restore.Root :| v[0] == RootName(r);
    assert RootName(r)[0] != '.';
    NoDotDot(v);
  }

  lemma {:induction false} NoDotDot(v: Path)
    requires Normal(v) && v != [] && v[0] != ".."
    ensures forall k :: 0 <= k < |v| ==> v[k] != ".."
  {
    if |v| <= 1 {
    } else {
      NoDotDot(v[..|v| - 1]);
      assert v[|v| - 2] == v[..|v| - 1][|v| - 2];
    }
  }
}
