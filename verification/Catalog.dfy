/** The flavor catalog seam: built-in flavors, the custom namespaces, and their composition. */
module Catalog {
  import opened Text

  datatype Flavor = Flavor(
    name: string, routing: string, vcpu: int, memoryMb: int, capabilities: seq<string>, custom: bool)

  const CUSTOM_FLAVOR_PREFIX := "custom-"
  const CUSTOM_LABEL_PREFIX := "lambda-ci-custom-"

  predicate IsCustomName(name: string) {
    StartsWith(name, CUSTOM_FLAVOR_PREFIX)
  }

  predicate IsCustomLabel(l: string) {
    StartsWith(Lower(Trim(l)), CUSTOM_LABEL_PREFIX)
  }

  predicate HasLower(labels: seq<string>, f: Flavor) {
    Lower(f.routing) in labels
  }

  function ByName(catalog: seq<Flavor>, name: string): (r: Option<Flavor>)
    ensures r.Some? ==> r.value in catalog && r.value.name == name
    ensures r.None? <==> forall i :: 0 <= i < |catalog| ==> catalog[i].name != name
  {
    if catalog == [] then None
    else if catalog[0].name == name then Some(catalog[0])
    else ByName(catalog[1..], name)
  }

  ghost predicate DistinctNames(catalog: seq<Flavor>) {
    forall i, j :: 0 <= i < j < |catalog| ==> catalog[i].name != catalog[j].name
  }

  ghost predicate DistinctLabels(catalog: seq<Flavor>) {
    forall i, j :: 0 <= i < j < |catalog| ==> Lower(catalog[i].routing) != Lower(catalog[j].routing)
  }

  /** A built-in routing label: lower-case, in the `lambda-ci` namespace, shorter than any custom label. */
  ghost predicate BuiltinLabel(l: string) {
    && StartsWith(l, "lambda-ci")
    && |l| < |CUSTOM_LABEL_PREFIX|
    && forall i :: 0 <= i < |l| ==> 'a' <= l[i] <= 'z' || '0' <= l[i] <= '9' || l[i] == '-'
  }

  /** What every proof assumes of the compiled-in catalog. */
  ghost predicate CatalogOk(builtin: seq<Flavor>) {
    && DistinctNames(builtin) && DistinctLabels(builtin)
    && ByName(builtin, "base").Some?
    && forall i :: 0 <= i < |builtin| ==>
         builtin[i].name != "" && !IsCustomName(builtin[i].name) && BuiltinLabel(builtin[i].routing) && !builtin[i].custom
  }

  /** A set of custom flavors as registration admits them: both namespaces respected. */
  ghost predicate Namespaced(custom: seq<Flavor>) {
    forall i :: 0 <= i < |custom| ==>
      IsCustomName(custom[i].name) && StartsWith(custom[i].routing, CUSTOM_LABEL_PREFIX)
  }

  /** Names and labels already taken by the entries of `out`. */
  function NamesOf(out: seq<Flavor>): set<string> {
    set f <- out :: f.name
  }

  function LabelsOf(out: seq<Flavor>): set<string> {
    set f <- out :: Lower(f.routing)
  }

  predicate Collides(out: seq<Flavor>, f: Flavor) {
    f.name in NamesOf(out) || Lower(f.routing) in LabelsOf(out)
  }

  /** `out` grown by every entry of `custom` that collides with nothing before it. */
  function Admit(out: seq<Flavor>, custom: seq<Flavor>): (r: seq<Flavor>)
    ensures out <= r
    ensures forall i :: |out| <= i < |r| ==> r[i].custom && exists f :: f in custom && r[i] == f.(custom := true)
    decreases |custom|
  {
    if custom == [] then out
    else if Collides(out, custom[0]) then Admit(out, custom[1..])
    else Admit(out + [custom[0].(custom := true)], custom[1..])
  }

  function Compose(builtin: seq<Flavor>, custom: seq<Flavor>): seq<Flavor> {
    Admit(builtin, custom)
  }

  method ComposeCatalog(builtin: seq<Flavor>, custom: seq<Flavor>) returns (out: seq<Flavor>)
    ensures out == Compose(builtin, custom)
  {
    if |custom| == 0 {
      return builtin;
    }
    var seenNames, seenLabels := NamesOf(builtin), LabelsOf(builtin);
    out := builtin;
    assert custom[0..] == custom;
    for i := 0 to |custom|
      invariant seenNames == NamesOf(out) && seenLabels == LabelsOf(out)
      invariant Admit(out, custom[i..]) == Compose(builtin, custom)
    {
      var f := custom[i];
      assert custom[i..][1..] == custom[i + 1..];
      if f.name in seenNames || Lower(f.routing) in seenLabels {
        continue;
      }
      seenNames, seenLabels := seenNames + {f.name}, seenLabels + {Lower(f.routing)};
      out := out + [f.(custom := true)];
    }
  }

  lemma {:induction false} AppendDistinct(out: seq<Flavor>, f: Flavor)
    requires DistinctNames(out) && DistinctLabels(out) && !Collides(out, f)
    ensures DistinctNames(out + [f]) && DistinctLabels(out + [f])
  {
    var all := out + [f];
    forall i, j | 0 <= i < j < |all|
      ensures all[i].name != all[j].name && Lower(all[i].routing) != Lower(all[j].routing)
    {
      assert all[i] == out[i] && out[i] in out;
      assert out[i].name in NamesOf(out) && Lower(out[i].routing) in LabelsOf(out);
    }
  }

  lemma {:induction false} AdmitKeepsDistinct(out: seq<Flavor>, custom: seq<Flavor>)
    requires DistinctNames(out) && DistinctLabels(out)
    ensures DistinctNames(Admit(out, custom)) && DistinctLabels(Admit(out, custom))
    decreases |custom|
  {
    if custom != [] {
      if Collides(out, custom[0]) {
        AdmitKeepsDistinct(out, custom[1..]);
      } else {
        AppendDistinct(out, custom[0].(custom := true));
        AdmitKeepsDistinct(out + [custom[0].(custom := true)], custom[1..]);
      }
    }
  }

  /** A dropped entry is one that an earlier entry of the result already shadows. */
  lemma {:induction false} AdmitIsMaximal(out: seq<Flavor>, custom: seq<Flavor>, i: nat)
    requires i < |custom|
    ensures custom[i].(custom := true) in Admit(out, custom) || Collides(Admit(out, custom), custom[i])
    decreases |custom|
  {
    var next := if Collides(out, custom[0]) then out else out + [custom[0].(custom := true)];
    var all := Admit(out, custom);
    assert all == Admit(next, custom[1..]);
    if i > 0 {
      AdmitIsMaximal(next, custom[1..], i - 1);
    } else if Collides(out, custom[0]) {
      assert forall f :: f in out ==> f in all;
    } else {
      assert next[|out|] in all;
    }
  }

  /**
   * Built-ins always win: composition keeps the built-in list as a prefix, keeps names and labels
   * distinct, and leaves out exactly the custom entries an earlier entry shadows.
   */
  lemma ComposeKeepsBuiltins(builtin: seq<Flavor>, custom: seq<Flavor>)
    requires DistinctNames(builtin) && DistinctLabels(builtin)
    ensures var all := Compose(builtin, custom);
            && builtin <= all && DistinctNames(all) && DistinctLabels(all)
            && forall f :: f in custom ==> f.(custom := true) in all || Collides(all, f)
  {
    AdmitKeepsDistinct(builtin, custom);
    forall f | f in custom
      ensures f.(custom := true) in Compose(builtin, custom) || Collides(Compose(builtin, custom), f)
    {
      var i :| 0 <= i < |custom| && custom[i] == f;
      AdmitIsMaximal(builtin, custom, i);
    }
  }

  function BuiltinFlavors(): seq<Flavor> {
    [
      Flavor("base", "lambda-ci", 2, 4096, [], false),
      Flavor("node", "lambda-ci-node", 2, 4096, ["node"], false),
      Flavor("python", "lambda-ci-python", 2, 4096, ["python"], false),
      Flavor("java", "lambda-ci-java", 2, 8192, ["java"], false),
      Flavor("go", "lambda-ci-go", 2, 4096, ["go"], false),
      Flavor("rust", "lambda-ci-rust", 4, 8192, ["rust"], false),
      Flavor("docker", "lambda-ci-docker", 4, 8192, ["docker"], false)
    ]
  }

  lemma LowerOfBuiltin(l: string)
    requires BuiltinLabel(l)
    ensures Lower(l) == l
  {
  }

  lemma ShippedNamesDistinct()
    ensures DistinctNames(BuiltinFlavors())
  {
    var b := BuiltinFlavors();
    forall i, j | 0 <= i < j < |b| ensures b[i].name != b[j].name {
      assert b[i].name[0] != b[j].name[0];
    }
  }

  lemma ShippedLabelsDistinct()
    ensures DistinctLabels(BuiltinFlavors())
  {
    var b := BuiltinFlavors();
    forall i, j | 0 <= i < j < |b| ensures Lower(b[i].routing) != Lower(b[j].routing) {
      assert |b[j].routing| > 10;
      assert |b[i].routing| == 9 || LowerChar(b[i].routing[10]) != LowerChar(b[j].routing[10]);
    }
  }

  lemma ShippedNamesBuiltin()
    ensures var b := BuiltinFlavors(); forall i :: 0 <= i < |b| ==> !IsCustomName(b[i].name) && !b[i].custom
  {
    var b := BuiltinFlavors();
    forall i | 0 <= i < |b| ensures !IsCustomName(b[i].name) && !b[i].custom {
      assert b[i].name[0] != 'c';
    }
  }

  lemma ShippedLabelsBuiltin()
    ensures var b := BuiltinFlavors(); forall i :: 0 <= i < |b| ==> BuiltinLabel(b[i].routing)
  {
    var b := BuiltinFlavors();
    forall i | 0 <= i < |b| ensures BuiltinLabel(b[i].routing) {
      assert b[i].routing[..9] == "lambda-ci";
    }
  }

  /** The catalog the repository ships meets the assumption. */
  lemma ShippedCatalogOk()
    ensures CatalogOk(BuiltinFlavors())
  {
    ShippedNamesDistinct();
    ShippedLabelsDistinct();
    ShippedNamesBuiltin();
    ShippedLabelsBuiltin();
    assert BuiltinFlavors()[0].name == "base";
  }

  /** A label that starts with the custom prefix is one, whatever trails it. */
  lemma CustomPrefixIsCustom(l: string)
    requires StartsWith(Lower(l), CUSTOM_LABEL_PREFIX)
    ensures IsCustomLabel(l)
  {
    var p := CUSTOM_LABEL_PREFIX;
    var lo, hi := TrimMargins(l);
    assert LowerChar(l[0]) == Lower(l)[0] == p[0] == 'l' && !IsWs(l[0]);
    assert LowerChar(l[16]) == Lower(l)[16] == p[16] == '-' && !IsWs(l[16]);
    assert lo == 0 && hi > 16;
    assert Lower(l[..hi])[..17] == Lower(l)[..17] == p;
  }
}
