/** The security properties that the Java configurator passes to the participant: settings of
    the system, and defaults for required names that the system leaves out. */
module PropertyMerge {

  datatype Property = Property(name: string, value: string)

  const PREFIX: string := "dds.sec"
  const IDENTITY_CERTIFICATE: string := "../ad_vortex_dds_certs/TESTONLY_ad_vortex_dds_identity_cert.pem"
  const PRIVATE_KEY: string := "../ad_vortex_dds_certs/private/TESTONLY_ad_vortex_dds_identity_private_key.pem"
  const IDENTITY_CA: string := "../TESTONLY_identity_ca_cert.pem"
  const PERMISSIONS_CA: string := "../TESTONLY_permissions_ca_cert.pem"

  /** The six required names with their defaults, in the order of the source. */
  function Required(governance: string, permissions: string): (ps: seq<Property>)
    ensures |ps| == 6
  {
    [Property("dds.sec.auth.identity_certificate", IDENTITY_CERTIFICATE),
     Property("dds.sec.auth.private_key", PRIVATE_KEY),
     Property("dds.sec.auth.identity_ca", IDENTITY_CA),
     Property("dds.sec.access.permissions_ca", PERMISSIONS_CA),
     Property("dds.sec.access.governance", governance),
     Property("dds.sec.access.permissions", permissions)]
  }

  predicate Distinct(ps: seq<Property>) {
    forall i, j :: 0 <= i < j < |ps| ==> ps[i].name != ps[j].name
  }

  function AsMap(ps: seq<Property>): map<string, string> {
    if ps == [] then map[]
    else AsMap(ps[..|ps| - 1])[ps[|ps| - 1].name := ps[|ps| - 1].value]
  }

  function SecuritySettings(system: map<string, string>): map<string, string> {
    map name | name in system && PREFIX <= name :: system[name]
  }

  /** The merge as a map: the user's settings override the defaults. */
  function Merged(system: map<string, string>, ps: seq<Property>): map<string, string> {
    AsMap(ps) + SecuritySettings(system)
  }

  /** A list of properties that has each name of a map once, with its value, and nothing else. */
  ghost predicate Lists(props: seq<Property>, m: map<string, string>) {
    && Distinct(props)
    && (forall i :: 0 <= i < |props| ==> props[i].name in m && m[props[i].name] == props[i].value)
    && (forall name :: name in m ==> Property(name, m[name]) in props)
  }

  lemma ListsOneMore(props: seq<Property>, m: map<string, string>, name: string, value: string)
    requires Lists(props, m) && name !in m
    ensures Lists(props + [Property(name, value)], m[name := value])
  {
  }

  lemma RequiredNames(governance: string, permissions: string)
    ensures Distinct(Required(governance, permissions))
    ensures forall i :: 0 <= i < 6 ==> PREFIX <= Required(governance, permissions)[i].name
  {
  }

  /** The settings together with the first `k` defaults. */
  function MergedUpTo(system: map<string, string>, ps: seq<Property>, k: nat): map<string, string>
    requires k <= |ps|
  {
    Merged(system, ps[..k])
  }

  /** Appends the k-th default unless the system sets its name. */
  method AddDefault(props: seq<Property>, system: map<string, string>, ps: seq<Property>, k: nat)
    returns (r: seq<Property>)
    requires Distinct(ps) && k < |ps| && PREFIX <= ps[k].name
    requires Lists(props, MergedUpTo(system, ps, k))
    ensures Lists(r, MergedUpTo(system, ps, k + 1))
  {
    r := props;
    OneMoreDefault(system, ps, k);
    if ps[k].name !in system {
      r := r + [ps[k]];
      ListsOneMore(props, MergedUpTo(system, ps, k), ps[k].name, ps[k].value);
    }
  }

  lemma {:induction false} AsMapKeys(ps: seq<Property>, name: string)
    ensures name in AsMap(ps) <==> exists i :: 0 <= i < |ps| && ps[i].name == name
  {
    if ps != [] {
      var n := |ps| - 1;
      AsMapKeys(ps[..n], name);
      assert forall i :: 0 <= i < n ==> ps[..n][i] == ps[i];
    }
  }

  lemma AsMapStep(ps: seq<Property>, k: nat)
    requires Distinct(ps) && k < |ps|
    ensures ps[k].name !in AsMap(ps[..k])
    ensures AsMap(ps[..k + 1]) == AsMap(ps[..k])[ps[k].name := ps[k].value]
  {
    AsMapKeys(ps[..k], ps[k].name);
    assert ps[..k + 1][..k] == ps[..k];
  }

  lemma OneMoreDefault(system: map<string, string>, ps: seq<Property>, k: nat)
    requires Distinct(ps) && k < |ps| && PREFIX <= ps[k].name
    ensures var m, m' := MergedUpTo(system, ps, k), MergedUpTo(system, ps, k + 1);
            if ps[k].name in system then m' == m
            else ps[k].name !in m && m' == m[ps[k].name := ps[k].value]
  {
    AsMapStep(ps, k);
    var settings := SecuritySettings(system);
    assert ps[k].name in system <==> ps[k].name in settings;
    OverrideStep(AsMap(ps[..k]), settings, ps[k].name, ps[k].value);
  }

  lemma OverrideStep(defaults: map<string, string>, settings: map<string, string>, name: string, value: string)
    ensures defaults[name := value] + settings
            == if name in settings then defaults + settings else (defaults + settings)[name := value]
  {
  }

  /** The loop over the system's properties, in any order. */
  method CopySettings(system: map<string, string>) returns (props: seq<Property>)
    ensures Lists(props, SecuritySettings(system))
  {
    props := [];
    var names := system.Keys;
    ghost var m: map<string, string> := map[];
    while names != {}
      invariant names <= system.Keys
      invariant m == map name | name in system && name !in names && PREFIX <= name :: system[name]
      invariant Lists(props, m)
      decreases names
    {
      var name :| name in names;
      names := names - {name};
      if PREFIX <= name {
        ListsOneMore(props, m, name, system[name]);
        props := props + [Property(name, system[name])];
        m := m[name := system[name]];
      }
    }
    assert m == SecuritySettings(system);
  }

  /** Three conditional additions: the names of authentication, then those of access control. */
  method AddThree(props: seq<Property>, system: map<string, string>, ps: seq<Property>, k: nat) returns (r: seq<Property>)
    requires Distinct(ps) && k + 3 <= |ps| && forall i :: 0 <= i < |ps| ==> PREFIX <= ps[i].name
    requires Lists(props, MergedUpTo(system, ps, k))
    ensures Lists(r, MergedUpTo(system, ps, k + 3))
  {
    r := AddDefault(props, system, ps, k);
    r := AddDefault(r, system, ps, k + 1);
    r := AddDefault(r, system, ps, k + 2);
  }

  method AddDefaults(props: seq<Property>, system: map<string, string>, ps: seq<Property>) returns (r: seq<Property>)
    requires |ps| == 6 && Distinct(ps) && forall i :: 0 <= i < 6 ==> PREFIX <= ps[i].name
    requires Lists(props, SecuritySettings(system))
    ensures Lists(r, Merged(system, ps))
  {
    assert MergedUpTo(system, ps, 0) == SecuritySettings(system);
    r := AddThree(props, system, ps, 0);
    r := AddThree(r, system, ps, 3);
    assert ps[..6] == ps;
  }

  /** The list gives a required name the system's value if there is one, and else its default. */
  ghost predicate Gives(props: seq<Property>, system: map<string, string>, name: string, default: string) {
    Property(name, if name in system then system[name] else default) in props
  }

  ghost predicate GivesRequired(props: seq<Property>, system: map<string, string>,
                                governance: string, permissions: string) {
    && Gives(props, system, "dds.sec.auth.identity_certificate",
             "../ad_vortex_dds_certs/TESTONLY_ad_vortex_dds_identity_cert.pem")
    && Gives(props, system, "dds.sec.auth.private_key",
             "../ad_vortex_dds_certs/private/TESTONLY_ad_vortex_dds_identity_private_key.pem")
    && Gives(props, system, "dds.sec.auth.identity_ca", "../TESTONLY_identity_ca_cert.pem")
    && Gives(props, system, "dds.sec.access.permissions_ca", "../TESTONLY_permissions_ca_cert.pem")
    && Gives(props, system, "dds.sec.access.governance", governance)
    && Gives(props, system, "dds.sec.access.permissions", permissions)
  }

  predicate IsRequired(name: string) {
    || name == "dds.sec.auth.identity_certificate" || name == "dds.sec.auth.private_key"
    || name == "dds.sec.auth.identity_ca" || name == "dds.sec.access.permissions_ca"
    || name == "dds.sec.access.governance" || name == "dds.sec.access.permissions"
  }

  /** The entry is a system setting of the middleware's security. */
  predicate IsSetting(p: Property, system: map<string, string>) {
    "dds.sec" <= p.name && p.name in system && p.value == system[p.name]
  }

  /** The list in full. Its names are distinct; each required name has the system's value or its
      default; all settings are there, and no other entries. */
  ghost predicate IsMerge(props: seq<Property>, system: map<string, string>, governance: string, permissions: string) {
    && Distinct(props)
    && GivesRequired(props, system, governance, permissions)
    && (forall p :: IsSetting(p, system) ==> p in props)
    && (forall p :: p in props ==> IsRequired(p.name) || IsSetting(p, system))
  }

  lemma {:induction false} AsMapValue(ps: seq<Property>, i: nat)
    requires Distinct(ps) && i < |ps|
    ensures ps[i].name in AsMap(ps) && AsMap(ps)[ps[i].name] == ps[i].value
  {
    var n := |ps| - 1;
    if i < n {
      AsMapValue(ps[..n], i);
    }
  }

  lemma DefaultGiven(props: seq<Property>, system: map<string, string>, ps: seq<Property>, i: nat)
    requires Distinct(ps) && i < |ps| && PREFIX <= ps[i].name && Lists(props, Merged(system, ps))
    ensures Gives(props, system, ps[i].name, ps[i].value)
  {
    AsMapValue(ps, i);
  }

  lemma EntryIsEither(props: seq<Property>, system: map<string, string>, ps: seq<Property>, p: Property)
    requires Lists(props, Merged(system, ps)) && p in props
    ensures (exists q :: q in ps && q.name == p.name) || IsSetting(p, system)
  {
    AsMapKeys(ps, p.name);
  }

  lemma RequiredAre(governance: string, permissions: string)
    ensures forall p :: p in Required(governance, permissions) ==> IsRequired(p.name)
  {
  }

  lemma RequiredGiven(props: seq<Property>, system: map<string, string>, governance: string, permissions: string)
    requires Lists(props, Merged(system, Required(governance, permissions)))
    ensures GivesRequired(props, system, governance, permissions)
  {
    var ps := Required(governance, permissions);
    RequiredNames(governance, permissions);
    forall i: nat | i < 6 ensures Gives(props, system, ps[i].name, ps[i].value) {
      DefaultGiven(props, system, ps, i);
    }
    assert Gives(props, system, ps[0].name, ps[0].value) && Gives(props, system, ps[1].name, ps[1].value);
    assert Gives(props, system, ps[2].name, ps[2].value) && Gives(props, system, ps[3].name, ps[3].value);
    assert Gives(props, system, ps[4].name, ps[4].value) && Gives(props, system, ps[5].name, ps[5].value);
  }

  /** The list of the merged map is the list asked for. */
  lemma ListedIsMerge(props: seq<Property>, system: map<string, string>, governance: string, permissions: string)
    requires Lists(props, Merged(system, Required(governance, permissions)))
    ensures IsMerge(props, system, governance, permissions)
  {
    var ps := Required(governance, permissions);
    RequiredGiven(props, system, governance, permissions);
    forall p | IsSetting(p, system) ensures p in props {
      SettingListed(props, system, ps, p);
    }
    forall p | p in props ensures IsRequired(p.name) || IsSetting(p, system) {
      EntryIsEither(props, system, ps, p);
      RequiredAre(governance, permissions);
    }
  }

  lemma SettingListed(props: seq<Property>, system: map<string, string>, ps: seq<Property>, p: Property)
    requires Lists(props, Merged(system, ps)) && IsSetting(p, system)
    ensures p in props
  {
    assert Merged(system, ps)[p.name] == p.value;
    assert p == Property(p.name, p.value);
  }

  /** The property list lists the merged map: each name once, every dds.sec setting with its
      value, and all required names, with the user's value where there is one. */
  method CreateProperties(system: map<string, string>, governance: string, permissions: string)
    returns (props: seq<Property>)
    ensures Distinct(Required(governance, permissions))
    ensures Lists(props, Merged(system, Required(governance, permissions)))
    ensures IsMerge(props, system, governance, permissions)
  {
    RequiredNames(governance, permissions);
    props := CopySettings(system);
    props := AddDefaults(props, system, Required(governance, permissions));
    ListedIsMerge(props, system, governance, permissions);
  }

  /** A list of a map has as many properties as the map has names. */
  lemma {:induction false} ListsSize(props: seq<Property>, m: map<string, string>)
    requires Lists(props, m)
    ensures |props| == |m|
  {
    if props == [] {
      assert m.Keys == {};
    } else {
      var n := |props| - 1;
      var last := props[n].name;
      var m' := m - {last};
      assert m.Keys == m'.Keys + {last};
      forall name | name in m' ensures Property(name, m'[name]) in props[..n] {
        var i :| 0 <= i < |props| && props[i] == Property(name, m[name]);
        assert props[..n][i] == props[i];
      }
      ListsSize(props[..n], m');
    }
  }
}
