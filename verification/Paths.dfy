/** Runtime directories short enough for unix socket paths. */
module Paths {

  const SUN_PATH_MAX := 107
  const MACHINE_SOCKET_NAME_MAX := 25   // "app-4294967295-conns.sock"
  const HASHED_COMPONENT_LEN := 13      // '_' and 12 hex digits
  const MACHINE_DIR_RESERVE := 12 + HASHED_COMPONENT_LEN + 1 + MACHINE_SOCKET_NAME_MAX // 12: "/containers/"
  const BASE_MAX := 37

  predicate IsLetterOrDigit(c: char) { '0' <= c <= '9' || 'a' <= c <= 'z' || 'A' <= c <= 'Z' }

  /** A DNS label: letters, digits and inner hyphens, at most 63 of them. */
  predicate IsLabel(s: string) {
    && 1 <= |s| <= 63 && s[0] != '-' && s[|s| - 1] != '-'
    && forall i | 0 <= i < |s| :: IsLetterOrDigit(s[i]) || s[i] == '-'
  }

  /** `Path::join` with a relative component. */
  function Join(parent: string, name: string): (p: string) {
    if parent == [] then name
    else if parent[|parent| - 1] == '/' then parent + name
    else parent + ['/'] + name
  }

  /** The first 12 hex digits of a name's digest. */
  type Hash = string -> string

  ghost predicate HashOk(hash: Hash) {
    forall name :: |hash(name)| == 12 && '/' !in hash(name)
  }

  function Fitted(parent: string, name: string, reserve: nat, hash: Hash): (p: string) {
    if |Join(parent, name)| + reserve <= SUN_PATH_MAX then Join(parent, name)
    else Join(parent, ['_'] + hash(name))
  }

  function LabRuntimeDir(base: string, lab: string, hash: Hash): string {
    Fitted(Join(base, "labs"), lab, MACHINE_DIR_RESERVE, hash)
  }

  datatype MachineKind = Vm | Container

  function KindDir(kind: MachineKind): string { if kind.Vm? then "vms" else "containers" }

  function MachineRuntimeDir(base: string, lab: string, kind: MachineKind, machine: string, hash: Hash): string {
    Fitted(Join(LabRuntimeDir(base, lab, hash), KindDir(kind)), machine, 1 + MACHINE_SOCKET_NAME_MAX, hash)
  }

  /** Every socket of every machine of every lab has a path that fits. */
  ghost predicate AllFit(base: string, hash: Hash) {
    forall lab, kind, machine, socket | IsLabel(lab) && IsLabel(machine) && |socket| <= MACHINE_SOCKET_NAME_MAX ::
      |Join(MachineRuntimeDir(base, lab, kind, machine, hash), socket)| <= SUN_PATH_MAX
  }

  predicate PlainBase(base: string) { base != [] && base[|base| - 1] != '/' }

  lemma FittedShort(parent: string, name: string, reserve: nat, hash: Hash, limit: nat)
    requires HashOk(hash) && name != [] && |parent| + 1 + HASHED_COMPONENT_LEN + reserve <= limit
    requires SUN_PATH_MAX <= limit
    ensures |Fitted(parent, name, reserve, hash)| + reserve <= limit
    ensures Fitted(parent, name, reserve, hash) != []
  {
  }

  lemma ShortBaseFits(base: string, hash: Hash, lab: string, kind: MachineKind, machine: string, socket: string)
    requires HashOk(hash) && |base| <= BASE_MAX && IsLabel(lab) && IsLabel(machine)
    requires |socket| <= MACHINE_SOCKET_NAME_MAX
    ensures |Join(MachineRuntimeDir(base, lab, kind, machine, hash), socket)| <= SUN_PATH_MAX
  {
    FittedShort(Join(base, "labs"), lab, MACHINE_DIR_RESERVE, hash, SUN_PATH_MAX);
    var parent := Join(LabRuntimeDir(base, lab, hash), KindDir(kind));
    FittedShort(parent, machine, 1 + MACHINE_SOCKET_NAME_MAX, hash, SUN_PATH_MAX);
  }

  function LongLabel(): (s: string)
    ensures IsLabel(s) && |s| == 63
  {
    seq(63, _ => 'a')
  }

  lemma FittedHashed(parent: string, name: string, reserve: nat, hash: Hash)
    requires HashOk(hash) && PlainBase(parent) && |name| == 63 && SUN_PATH_MAX < |parent| + 64 + reserve
    ensures |Fitted(parent, name, reserve, hash)| == |parent| + 1 + HASHED_COMPONENT_LEN
    ensures Fitted(parent, name, reserve, hash) != []
  {
  }

  lemma JoinPlain(parent: string, name: string)
    requires PlainBase(parent) && name != [] && name[|name| - 1] != '/'
    ensures Join(parent, name) == parent + ['/'] + name && PlainBase(Join(parent, name))
  {
  }

  /** The longest names of a longer base do not fit. */
  lemma LongBaseFails(base: string, hash: Hash) returns (socket: string)
    requires HashOk(hash) && PlainBase(base) && BASE_MAX < |base|
    ensures |socket| == MACHINE_SOCKET_NAME_MAX
    ensures SUN_PATH_MAX < |Join(MachineRuntimeDir(base, LongLabel(), Container, LongLabel(), hash), socket)|
  {
    socket := seq(MACHINE_SOCKET_NAME_MAX, _ => 'a');
    JoinPlain(base, "labs");
    var lab := LabRuntimeDir(base, LongLabel(), hash);
    FittedHashed(Join(base, "labs"), LongLabel(), MACHINE_DIR_RESERVE, hash);
    HashedPlain(Join(base, "labs"), LongLabel(), MACHINE_DIR_RESERVE, hash);
    JoinPlain(lab, "containers");
    FittedHashed(Join(lab, "containers"), LongLabel(), 1 + MACHINE_SOCKET_NAME_MAX, hash);
    HashedPlain(Join(lab, "containers"), LongLabel(), 1 + MACHINE_SOCKET_NAME_MAX, hash);
  }

  /** A fitted directory never ends in a slash. */
  lemma HashedPlain(parent: string, name: string, reserve: nat, hash: Hash)
    requires HashOk(hash) && PlainBase(parent) && IsLabel(name)
    ensures PlainBase(Fitted(parent, name, reserve, hash))
  {
    assert (['_'] + hash(name))[12] == hash(name)[11];
    assert hash(name)[11] in hash(name);
  }

  /** All socket paths fit if and only if the runtime base has at most 37 bytes: the bound is
      tight. */
  lemma FitsIff(base: string, hash: Hash)
    requires HashOk(hash) && PlainBase(base)
    ensures AllFit(base, hash) <==> |base| <= BASE_MAX
  {
    if |base| <= BASE_MAX {
      forall lab, kind, machine, socket | IsLabel(lab) && IsLabel(machine) && |socket| <= MACHINE_SOCKET_NAME_MAX
        ensures |Join(MachineRuntimeDir(base, lab, kind, machine, hash), socket)| <= SUN_PATH_MAX
      {
        ShortBaseFits(base, hash, lab, kind, machine, socket);
      }
    } else {
      var socket := LongBaseFails(base, hash);
      var longest := LongLabel();
      assert !(|Join(MachineRuntimeDir(base, longest, Container, longest, hash), socket)| <= SUN_PATH_MAX);
    }
  }

  // Distinct machines get distinct directories.

  /** The component a name becomes. */
  function Component(parent: string, name: string, reserve: nat, hash: Hash): (c: string) {
    if |Join(parent, name)| + reserve <= SUN_PATH_MAX then name else ['_'] + hash(name)
  }

  lemma ComponentHasNoSlash(parent: string, name: string, reserve: nat, hash: Hash)
    requires HashOk(hash) && IsLabel(name)
    ensures '/' !in Component(parent, name, reserve, hash) && Component(parent, name, reserve, hash) != []
  {
  }

  /** A hashed component never collides with a real name, nor two hashed ones with each other. */
  lemma SameComponent(parent: string, a: string, b: string, reserve: nat, hash: Hash)
    requires HashOk(hash) && IsLabel(a) && IsLabel(b) && (hash(a) == hash(b) ==> a == b)
    requires Component(parent, a, reserve, hash) == Component(parent, b, reserve, hash)
    ensures a == b
  {
    if Component(parent, a, reserve, hash) != a && Component(parent, b, reserve, hash) != b {
      assert (['_'] + hash(a))[1..] == hash(a) && (['_'] + hash(b))[1..] == hash(b);
    }
  }

  lemma SplitLast(p: string, a: string, q: string, b: string)
    requires p + ['/'] + a == q + ['/'] + b && '/' !in a && '/' !in b
    ensures p == q && a == b
  {
    var s := p + ['/'] + a;
    assert s[|p|] == '/' && (q + ['/'] + b)[|q|] == '/';
    assert |p| == |q|;
    assert s[..|p|] == p && (q + ['/'] + b)[..|q|] == q;
    assert s[|p| + 1..] == a && (q + ['/'] + b)[|q| + 1..] == b;
  }

  lemma FittedIs(parent: string, name: string, reserve: nat, hash: Hash)
    requires HashOk(hash) && PlainBase(parent) && IsLabel(name)
    ensures Fitted(parent, name, reserve, hash) == parent + ['/'] + Component(parent, name, reserve, hash)
    ensures PlainBase(Fitted(parent, name, reserve, hash))
  {
    HashedPlain(parent, name, reserve, hash);
  }

  lemma KindsDiffer(a: MachineKind, b: MachineKind)
    ensures '/' !in KindDir(a) && KindDir(a) != [] && KindDir(a)[|KindDir(a)| - 1] != '/'
    ensures KindDir(a) == KindDir(b) ==> a == b
  {
    assert |"vms"| == 3 && |"containers"| == 10;
  }

  /** If the truncated hash tells apart the names in use, different machines, of whatever lab and
      kind, get different directories. */
  lemma DirectoriesDistinct(base: string, hash: Hash, lab: string, kind: MachineKind, machine: string,
                            lab': string, kind': MachineKind, machine': string)
    requires HashOk(hash) && PlainBase(base)
    requires IsLabel(lab) && IsLabel(lab') && IsLabel(machine) && IsLabel(machine')
    requires hash(lab) == hash(lab') ==> lab == lab'
    requires hash(machine) == hash(machine') ==> machine == machine'
    requires MachineRuntimeDir(base, lab, kind, machine, hash) == MachineRuntimeDir(base, lab', kind', machine', hash)
    ensures lab == lab' && kind == kind' && machine == machine'
  {
    var labs, r := Join(base, "labs"), 1 + MACHINE_SOCKET_NAME_MAX;
    JoinPlain(base, "labs");
    FittedIs(labs, lab, MACHINE_DIR_RESERVE, hash);
    FittedIs(labs, lab', MACHINE_DIR_RESERVE, hash);
    var d, d' := LabRuntimeDir(base, lab, hash), LabRuntimeDir(base, lab', hash);
    KindsDiffer(kind, kind');
    KindsDiffer(kind', kind);
    JoinPlain(d, KindDir(kind));
    JoinPlain(d', KindDir(kind'));
    var k, k' := Join(d, KindDir(kind)), Join(d', KindDir(kind'));
    FittedIs(k, machine, r, hash);
    FittedIs(k', machine', r, hash);
    ComponentHasNoSlash(k, machine, r, hash);
    ComponentHasNoSlash(k', machine', r, hash);
    SplitLast(k, Component(k, machine, r, hash), k', Component(k', machine', r, hash));
    SplitLast(d, KindDir(kind), d', KindDir(kind'));
    SameComponent(k, machine, machine', r, hash);
    ComponentHasNoSlash(labs, lab, MACHINE_DIR_RESERVE, hash);
    ComponentHasNoSlash(labs, lab', MACHINE_DIR_RESERVE, hash);
    SplitLast(labs, Component(labs, lab, MACHINE_DIR_RESERVE, hash),
              labs, Component(labs, lab', MACHINE_DIR_RESERVE, hash));
    SameComponent(labs, lab, lab', MACHINE_DIR_RESERVE, hash);
  }

  /** A lab keeps its readable directory exactly while base and name have at most 50 characters, a
      machine while its directory's path has at most 81; else the name is replaced by its hash. */
  lemma ReadableIff(base: string, hash: Hash, lab: string, kind: MachineKind, machine: string)
    requires HashOk(hash) && PlainBase(base) && IsLabel(lab) && IsLabel(machine)
    ensures var labDir := LabRuntimeDir(base, lab, hash);
            var parent := labDir + "/" + (if kind == Vm then "vms" else "containers");
            && labDir == base + "/labs/" + (if |base| + |lab| <= 50 then lab else "_" + hash(lab))
            && MachineRuntimeDir(base, lab, kind, machine, hash)
               == parent + "/" + (if |parent| + 1 + |machine| <= 81 then machine else "_" + hash(machine))
  {
    JoinPlain(base, "labs");
    LabDirIs(base, hash, lab);
    var labDir := LabRuntimeDir(base, lab, hash);
    HashedPlain(Join(base, "labs"), lab, MACHINE_DIR_RESERVE, hash);
    KindsDiffer(kind, kind);
    JoinPlain(labDir, KindDir(kind));
    FittedPlain(Join(labDir, KindDir(kind)), machine, 1 + MACHINE_SOCKET_NAME_MAX, hash);
  }

  lemma FittedPlain(parent: string, name: string, reserve: nat, hash: Hash)
    requires PlainBase(parent)
    ensures Fitted(parent, name, reserve, hash)
            == parent + "/" + (if |parent| + 1 + |name| + reserve <= 107 then name else "_" + hash(name))
  {
  }

  lemma LabDirIs(base: string, hash: Hash, lab: string)
    requires HashOk(hash) && PlainBase(base) && IsLabel(lab)
    ensures LabRuntimeDir(base, lab, hash)
            == base + "/labs/" + (if |base| + |lab| <= 50 then lab else "_" + hash(lab))
  {
    JoinPlain(base, "labs");
    var name := if |base| + |lab| <= 50 then lab else "_" + hash(lab);
    FittedPlain(Join(base, "labs"), lab, MACHINE_DIR_RESERVE, hash);
    assert base + ['/'] + "labs" + "/" + name == base + "/labs/" + name;
  }
}
