/**
 The two readers of modal services from one frame: the trace analysis keeps
 services whose every requirement is MUST or MAY, the audit lists all services
 with one combined modality.
 */
module Services {
  import opened TextOrder
  import opened Wrappers

  /** What an opportunity carries: its kind, if any, and the modality of its future. */
  datatype Opportunity = Opportunity(kind: Option<string>, future: Option<string>)

  /** The parts of a frame both readers use; each table gives the modality recorded under a name. */
  datatype Frame = Frame(
    opportunities: map<string, Opportunity>,
    capabilities: map<string, string>,
    routes: map<string, string>,
    timings: map<string, string>)

  datatype Requirements = Requirements(capability: string, opportunity: string, route: string, timing: string)

  datatype Service = Service(identity: string, capability: string, owners: seq<string>, requirements: Requirements, modality: string)

  datatype AvailableService = AvailableService(identity: string, capability: string, owners: seq<string>, requirements: Requirements)

  const CAPABILITY_FOR_KIND: map<string, string> := map[
    "resource" := "CHARGE", "novel_crystal" := "CHARGE", "rest" := "REST", "inspect" := "INSPECT"
  ]

  const OWNERS_FOR_CAPABILITY: map<string, seq<string>> := map[
    "CHARGE" := ["energy"], "REST" := ["fatigue", "integrity"], "INSPECT" := ["stimulation"]
  ]

  /** The analysis keeps its own tables, the other way round. */
  const CAPABILITIES: seq<string> := ["CHARGE", "REST", "INSPECT"]

  const KINDS_BY_CAPABILITY: map<string, set<string>> := map[
    "CHARGE" := {"resource", "novel_crystal"}, "REST" := {"rest"}, "INSPECT" := {"inspect"}
  ]

  const OWNERS_BY_CAPABILITY: map<string, set<string>> := map[
    "CHARGE" := {"energy"}, "REST" := {"fatigue", "integrity"}, "INSPECT" := {"stimulation"}
  ]

  /** A missing row, or a row without a modality, reads as UNKNOWN. */
  function Modality(table: map<string, string>, name: string): string {
    if name in table then table[name] else "UNKNOWN"
  }

  function FutureModality(opportunity: Opportunity): string {
    if opportunity.future.Some? then opportunity.future.value else "UNKNOWN"
  }

  function RequirementsOf(frame: Frame, capability: string, name: string): Requirements
    requires name in frame.opportunities
  {
    Requirements(
      Modality(frame.capabilities, capability), FutureModality(frame.opportunities[name]),
      Modality(frame.routes, name), Modality(frame.timings, capability))
  }

  function Values(r: Requirements): seq<string> {
    [r.capability, r.opportunity, r.route, r.timing]
  }

  function Identity(capability: string, name: string): string {
    "modal-service:" + capability + ":" + name
  }

  // -------------------------------------------------- combined modality

  function Combined(values: seq<string>): (modality: string) {
    if "UNSUPPORTED" in values then "UNSUPPORTED"
    else if "UNKNOWN" in values then "UNKNOWN"
    else if "MAY" in values then "MAY"
    else "MUST"
  }

  /** How strong a claim a modality is; any text the readers do not know ranks with MUST. */
  function Strength(modality: string): nat {
    if modality == "UNSUPPORTED" then 0 else if modality == "UNKNOWN" then 1 else if modality == "MAY" then 2 else 3
  }

  /** The combined modality is the weakest of the parts. */
  lemma CombinedIsWeakest(values: seq<string>, modality: string)
    requires modality in {"UNSUPPORTED", "UNKNOWN", "MAY", "MUST"}
    ensures modality == Combined(values) <==>
            && (forall v | v in values :: Strength(modality) <= Strength(v))
            && (modality == "MUST" || modality in values)
  {}

  lemma CombinedIgnoresOrder(xs: seq<string>, ys: seq<string>)
    requires multiset(xs) == multiset(ys)
    ensures Combined(xs) == Combined(ys)
  {
    assert forall v :: v in xs <==> v in multiset(xs);
    assert forall v :: v in ys <==> v in multiset(ys);
  }

  /** Combining in two stages is combining at once. */
  lemma CombinedOfParts(xs: seq<string>, ys: seq<string>)
    ensures Combined(xs + ys) == Combined([Combined(xs), Combined(ys)])
  {}

  // ------------------------------------------------------------ tables

  lemma OwnerTablesAgree(capability: string)
    requires capability in OWNERS_BY_CAPABILITY
    ensures capability in OWNERS_FOR_CAPABILITY
    ensures Sorted(OWNERS_BY_CAPABILITY[capability]) == OWNERS_FOR_CAPABILITY[capability]
  {}

  /** The capability whose kinds include this one; the two tables say the same. */
  function CapabilityOf(kind: Option<string>): Option<string> {
    if kind.Some? && kind.value in CAPABILITY_FOR_KIND then Some(CAPABILITY_FOR_KIND[kind.value]) else None
  }

  lemma KindTablesAgree(kind: Option<string>, capability: string)
    requires capability in KINDS_BY_CAPABILITY
    ensures (if kind.Some? then kind.value else "") in KINDS_BY_CAPABILITY[capability] <==> CapabilityOf(kind) == Some(capability)
  {}

  // ------------------------------------------------- what each reader lists

  /** The audit's row for an opportunity whose kind some capability serves. */
  ghost function ServiceOf(frame: Frame, name: string): Option<Service>
    requires name in frame.opportunities
  {
    var capability := CapabilityOf(frame.opportunities[name].kind);
    if capability.None? then None
    else
      var r := RequirementsOf(frame, capability.value, name);
      Some(Service(Identity(capability.value, name), capability.value, OWNERS_FOR_CAPABILITY[capability.value], r, Combined(Values(r))))
  }

  ghost predicate Named(frame: Frame, names: seq<string>) {
    forall name | name in names :: name in frame.opportunities
  }

  ghost function AllServices(frame: Frame, names: seq<string>): (rows: seq<Service>)
    requires Named(frame, names)
  {
    if names == [] then []
    else
      var rest, last := AllServices(frame, names[..|names| - 1]), ServiceOf(frame, names[|names| - 1]);
      if last.None? then rest else rest + [last.value]
  }

  predicate Certain(value: string) {
    value == "MUST" || value == "MAY"
  }

  ghost predicate AllCertain(r: Requirements) {
    forall value | value in Values(r) :: Certain(value)
  }

  lemma AllCertainMeans(r: Requirements)
    ensures AllCertain(r) <==> Certain(r.capability) && Certain(r.opportunity) && Certain(r.route) && Certain(r.timing)
  {}

  /** The row without its combined modality, if every requirement is MUST or MAY. */
  ghost function CertainRow(row: Service): seq<AvailableService> {
    if AllCertain(row.requirements) then [AvailableService(row.identity, row.capability, row.owners, row.requirements)] else []
  }

  /** Keeps the rows whose every requirement is MUST or MAY. */
  ghost function KeepCertain(rows: seq<Service>): (kept: seq<AvailableService>) {
    if rows == [] then [] else KeepCertain(rows[..|rows| - 1]) + CertainRow(rows[|rows| - 1])
  }

  /** Keeps the rows whose combined modality is MUST or MAY. */
  ghost function KeepCombined(rows: seq<Service>): (kept: seq<AvailableService>) {
    if rows == [] then []
    else
      var rest, last := KeepCombined(rows[..|rows| - 1]), rows[|rows| - 1];
      if Certain(last.modality) then rest + [AvailableService(last.identity, last.capability, last.owners, last.requirements)]
      else rest
  }

  method ServicesFromFrame(frame: Frame) returns (rows: seq<Service>)
    ensures Named(frame, Sorted(frame.opportunities.Keys))
    ensures rows == AllServices(frame, Sorted(frame.opportunities.Keys))
  {
    var names := SortNames(frame.opportunities.Keys);
    rows := [];
    var i := 0;
    while i < |names|
      invariant 0 <= i <= |names|
      invariant Named(frame, names[..i])
      invariant rows == AllServices(frame, names[..i])
    {
      var name := names[i];
      assert name in names && names[..i + 1][..i] == names[..i];
      i := i + 1;
      var opportunity := frame.opportunities[name];
      if opportunity.kind.None? || opportunity.kind.value !in CAPABILITY_FOR_KIND {
        continue;
      }
      var capability := CAPABILITY_FOR_KIND[opportunity.kind.value];
      var requirements := RequirementsOf(frame, capability, name);
      rows := rows + [Service(Identity(capability, name), capability, OWNERS_FOR_CAPABILITY[capability],
                              requirements, Combined(Values(requirements)))];
    }
    assert names[..i] == names;
  }

  lemma NextAvailable(frame: Frame, names: seq<string>)
    requires Named(frame, names) && names != []
    ensures var row := ServiceOf(frame, names[|names| - 1]);
            KeepCertain(AllServices(frame, names))
            == KeepCertain(AllServices(frame, names[..|names| - 1])) + if row.None? then [] else CertainRow(row.value)
  {}

  /** The services the analysis counts, in the order of their opportunities. */
  ghost function Available(frame: Frame): seq<AvailableService> {
    KeepCertain(AllServices(frame, Sorted(frame.opportunities.Keys)))
  }

  method AvailableServices(frame: Frame) returns (rows: seq<AvailableService>)
    ensures rows == Available(frame)
  {
    var names := SortNames(frame.opportunities.Keys);
    assert Named(frame, names) && forall k | 0 <= k <= |names| :: Named(frame, names[..k]);
    assert names[..0] == [] && KeepCertain(AllServices(frame, [])) == [];
    hide Named, CertainRow, ServiceOf, KeepCertain, AllServices;
    rows := [];
    var i := 0;
    while i < |names|
      invariant 0 <= i <= |names|
      invariant rows == KeepCertain(AllServices(frame, names[..i]))
    {
      var name := names[i];
      assert name in names && names[..i + 1][..i] == names[..i];
      var found := AvailableFor(frame, name);
      rows := rows + found;
      i := i + 1;
      NextAvailable(frame, names[..i]);
    }
    assert names[..i] == names;
  }

  /** The inner loop over the three capabilities, for one opportunity. */
  method AvailableFor(frame: Frame, name: string) returns (found: seq<AvailableService>)
    requires name in frame.opportunities
    ensures var row := ServiceOf(frame, name);
            found == if row.None? then [] else CertainRow(row.value)
  {
    var kind := frame.opportunities[name].kind;
    ghost var mine := CapabilityOf(kind);
    ghost var row := ServiceOf(frame, name);
    found := [];
    var j := 0;
    while j < |CAPABILITIES|
      invariant 0 <= j <= |CAPABILITIES|
      invariant found == if mine.Some? && mine.value in CAPABILITIES[..j] then CertainRow(row.value) else []
    {
      var capability := CAPABILITIES[j];
      assert CAPABILITIES[..j + 1] == CAPABILITIES[..j] + [capability];
      assert capability !in CAPABILITIES[..j] && capability in KINDS_BY_CAPABILITY && capability in OWNERS_BY_CAPABILITY;
      KindTablesAgree(kind, capability);
      hide CapabilityOf;
      j := j + 1;
      if (if kind.Some? then kind.value else "") !in KINDS_BY_CAPABILITY[capability] {
        continue;
      }
      OwnerTablesAgree(capability);
      var r := RequirementsOf(frame, capability, name);
      AllCertainMeans(r);
      var owners := SortNames(OWNERS_BY_CAPABILITY[capability]);
      hide RequirementsOf, AllCertain, Certain, Combined;
      if Certain(r.capability) && Certain(r.opportunity) && Certain(r.route) && Certain(r.timing) {
        found := found + [AvailableService(Identity(capability, name), capability, owners, r)];
      }
    }
    assert CAPABILITIES[..j] == CAPABILITIES;
    assert mine.Some? ==> mine.value in CAPABILITIES;
  }

  // ------------------------------------------------------------ agreement

  /** A requirement with a text neither reader knows and nothing UNKNOWN or UNSUPPORTED: MUST or MAY to one reader only. */
  predicate Misread(r: Requirements) {
    var values := Values(r);
    && (exists value | value in values :: !Certain(value))
    && "UNKNOWN" !in values && "UNSUPPORTED" !in values
  }

  lemma CertainMeaning(row: Service)
    requires row.modality == Combined(Values(row.requirements))
    ensures Certain(row.modality) <==> AllCertain(row.requirements) || Misread(row.requirements)
    ensures !(AllCertain(row.requirements) && Misread(row.requirements))
  {}

  /** The audit filtered by combined modality never lists fewer, and the same exactly when nothing is misread. */
  lemma {:induction false} ReadersAgreeExactly(rows: seq<Service>)
    requires forall row | row in rows :: row.modality == Combined(Values(row.requirements))
    ensures |KeepCertain(rows)| <= |KeepCombined(rows)|
    ensures KeepCertain(rows) == KeepCombined(rows) <==> forall row | row in rows :: !Misread(row.requirements)
  {
    if rows != [] {
      var rest, last := rows[..|rows| - 1], rows[|rows| - 1];
      assert last in rows && rows == rest + [last];
      ReadersAgreeExactly(rest);
      CertainMeaning(last);
      hide Misread, AllCertain, Certain, Combined;
      assert |KeepCertain(rows)| <= |KeepCombined(rows)|;
      if !Misread(last.requirements) {
        AppendedSame(KeepCertain(rest), KeepCombined(rest), KeepCertain(rows), KeepCombined(rows));
      } else {
        assert |KeepCertain(rows)| < |KeepCombined(rows)|;
      }
    }
  }

  /** Adding the same rows to both lists does not change whether they are equal. */
  lemma AppendedSame<T>(xs: seq<T>, ys: seq<T>, xs': seq<T>, ys': seq<T>)
    requires (xs' == xs && ys' == ys) || exists t :: xs' == xs + [t] && ys' == ys + [t]
    ensures xs == ys <==> xs' == ys'
  {
    if t :| xs' == xs + [t] && ys' == ys + [t] {
      assert xs == xs'[..|xs|] && |xs'| == |xs| + 1;
      assert ys == ys'[..|ys|] && |ys'| == |ys| + 1;
    }
  }

  lemma {:induction false} AllServicesAreCombined(frame: Frame, names: seq<string>)
    requires Named(frame, names)
    ensures forall row | row in AllServices(frame, names) :: row.modality == Combined(Values(row.requirements))
  {
    if names != [] {
      AllServicesAreCombined(frame, names[..|names| - 1]);
    }
  }

  /** A frame none of whose opportunities is misread. */
  ghost predicate ReadsClearly(frame: Frame) {
    forall name | name in frame.opportunities ::
      var row := ServiceOf(frame, name); row.Some? ==> !Misread(row.value.requirements)
  }

  lemma {:induction false} RowsAreServices(frame: Frame, names: seq<string>, row: Service)
    requires Named(frame, names)
    ensures row in AllServices(frame, names) <==> exists name | name in names :: ServiceOf(frame, name) == Some(row)
  {
    if names != [] {
      var rest, last := names[..|names| - 1], names[|names| - 1];
      assert names == rest + [last];
      RowsAreServices(frame, rest, row);
      assert ServiceOf(frame, last) == Some(row) ==> last in names;
    }
  }

  /** On every frame the two readers list the same services in the same order exactly when nothing is misread. */
  lemma FramesAgreeExactly(frame: Frame)
    ensures var names := Sorted(frame.opportunities.Keys);
            && Named(frame, names)
            && (KeepCertain(AllServices(frame, names)) == KeepCombined(AllServices(frame, names)) <==> ReadsClearly(frame))
  {
    var names := Sorted(frame.opportunities.Keys);
    var rows := AllServices(frame, names);
    AllServicesAreCombined(frame, names);
    ReadersAgreeExactly(rows);
    hide ServiceOf, Misread;
    forall row ensures row in rows <==> exists name | name in names :: ServiceOf(frame, name) == Some(row) {
      RowsAreServices(frame, names, row);
    }
    forall name | name in frame.opportunities && ServiceOf(frame, name).Some?
      ensures ServiceOf(frame, name).value in rows
    {
      assert name in names;
    }
  }

  lemma KnownIsNotMisread(r: Requirements)
    requires Known(r.capability) && Known(r.opportunity) && Known(r.route) && Known(r.timing)
    ensures !Misread(r)
  {}

  /** Frames that use only the four modalities are never misread. */
  lemma KnownModalitiesAgree(frame: Frame)
    requires forall name | name in frame.opportunities :: Known(FutureModality(frame.opportunities[name]))
    requires forall name | name in frame.capabilities :: Known(frame.capabilities[name])
    requires forall name | name in frame.routes :: Known(frame.routes[name])
    requires forall name | name in frame.timings :: Known(frame.timings[name])
    ensures ReadsClearly(frame)
  {
    forall name | name in frame.opportunities && ServiceOf(frame, name).Some?
      ensures !Misread(ServiceOf(frame, name).value.requirements)
    {
      var r := ServiceOf(frame, name).value.requirements;
      assert Known("UNKNOWN");
      hide Misread, Known, Combined, Values;
      KnownIsNotMisread(r);
    }
  }

  predicate Known(modality: string) {
    modality in {"MUST", "MAY", "UNKNOWN", "UNSUPPORTED"}
  }

  /** A misspelt modality makes the audit claim a MUST service that the analysis does not count. */
  lemma MisspeltModalityDiffers()
    ensures var frame := Frame(map["o" := Opportunity(Some("rest"), Some("MIGHT"))], map["REST" := "MUST"], map["o" := "MUST"], map["REST" := "MUST"]);
            && ServiceOf(frame, "o").Some? && ServiceOf(frame, "o").value.modality == "MUST"
            && Misread(ServiceOf(frame, "o").value.requirements) && !ReadsClearly(frame)
  {
    var frame := Frame(map["o" := Opportunity(Some("rest"), Some("MIGHT"))], map["REST" := "MUST"], map["o" := "MUST"], map["REST" := "MUST"]);
    assert "MIGHT" in Values(ServiceOf(frame, "o").value.requirements);
  }

  // ------------------------------------------------------ what a row says

  /** The audit lists a row exactly for a kind some capability of the analysis serves, under that capability and its owners. */
  lemma RowsServeTheirKind(frame: Frame, name: string)
    requires name in frame.opportunities
    ensures ServiceOf(frame, name).Some? <==>
              frame.opportunities[name].kind.Some?
              && exists c :: c in KINDS_BY_CAPABILITY && frame.opportunities[name].kind.value in KINDS_BY_CAPABILITY[c]
    ensures ServiceOf(frame, name).Some? ==> var row := ServiceOf(frame, name).value;
              && row.capability in KINDS_BY_CAPABILITY && frame.opportunities[name].kind.value in KINDS_BY_CAPABILITY[row.capability]
              && row.capability in OWNERS_BY_CAPABILITY && row.identity == Identity(row.capability, name)
              && StrictlySorted(row.owners) && forall owner :: owner in row.owners <==> owner in OWNERS_BY_CAPABILITY[row.capability]
  {
    var kind := frame.opportunities[name].kind;
    var capability := CapabilityOf(kind);
    if capability.Some? {
      assert capability.value in KINDS_BY_CAPABILITY && kind.value in KINDS_BY_CAPABILITY[capability.value];
      OwnerTablesAgree(capability.value);
    }
  }

  /** The audit lists one row for each served opportunity and no other, in name order. */
  lemma {:induction false} ServedInOrder(frame: Frame, names: seq<string>) returns (served: seq<string>)
    requires Named(frame, names) && StrictlySorted(names)
    ensures StrictlySorted(served) && |served| == |AllServices(frame, names)|
    ensures forall name :: name in served <==> name in names && name in frame.opportunities && ServiceOf(frame, name).Some?
    ensures forall k | 0 <= k < |served| :: ServiceOf(frame, served[k]) == Some(AllServices(frame, names)[k])
  {
    hide ServiceOf, Lt;
    served := [];
    if names != [] {
      var front, last := names[..|names| - 1], names[|names| - 1];
      assert last in names && names == front + [last];
      served := ServedInOrder(frame, front);
      if ServiceOf(frame, last).Some? {
        forall k | 0 <= k < |served| ensures Lt(served[k], last) {
          assert served[k] in front;
        }
        served := served + [last];
      }
    }
  }

  /** The analysis counts a row exactly when its four requirements are MUST or MAY, and keeps all the row says. */
  lemma CountedExactly(row: Service)
    ensures CertainRow(row) != [] <==>
              && row.requirements.capability in {"MUST", "MAY"} && row.requirements.opportunity in {"MUST", "MAY"}
              && row.requirements.route in {"MUST", "MAY"} && row.requirements.timing in {"MUST", "MAY"}
    ensures CertainRow(row) != [] ==>
              && |CertainRow(row)| == 1 && CertainRow(row)[0].identity == row.identity && CertainRow(row)[0].capability == row.capability
              && CertainRow(row)[0].owners == row.owners && CertainRow(row)[0].requirements == row.requirements
  {
    AllCertainMeans(row.requirements);
  }

  // ------------------------------------------------ missing rows and names

  /** A service with any of its rows missing is UNKNOWN or worse to the audit, and the analysis never counts it. */
  lemma MissingRowIsNeverCounted(frame: Frame, name: string, capability: string)
    requires name in frame.opportunities && CapabilityOf(frame.opportunities[name].kind) == Some(capability)
    requires name !in frame.routes || capability !in frame.capabilities || capability !in frame.timings
             || frame.opportunities[name].future.None?
    ensures ServiceOf(frame, name).Some?
    ensures ServiceOf(frame, name).value.modality in {"UNKNOWN", "UNSUPPORTED"}
    ensures CertainRow(ServiceOf(frame, name).value) == []
  {
    var values := Values(ServiceOf(frame, name).value.requirements);
    assert values[0] in values && values[1] in values && values[2] in values && values[3] in values;
    assert "UNKNOWN" in values;
  }

  /** The four requirements of a service are the rows recorded under its capability and its opportunity. */
  lemma RequirementsAreRecorded(frame: Frame, name: string, capability: string)
    requires name in frame.opportunities && CapabilityOf(frame.opportunities[name].kind) == Some(capability)
    requires name in frame.routes && capability in frame.capabilities && capability in frame.timings
    requires frame.opportunities[name].future.Some?
    ensures ServiceOf(frame, name).Some?
    ensures multiset(Values(ServiceOf(frame, name).value.requirements))
         == multiset{frame.capabilities[capability], frame.opportunities[name].future.value, frame.routes[name], frame.timings[capability]}
  {}

  /** Services of different capabilities or opportunities have different identities. */
  lemma IdentitiesDistinct(capability: string, name: string, other: string, otherName: string)
    requires capability in OWNERS_FOR_CAPABILITY && other in OWNERS_FOR_CAPABILITY
    ensures Identity(capability, name) == Identity(other, otherName) <==> capability == other && name == otherName
  {
    var a, b := capability + ":" + name, other + ":" + otherName;
    assert Identity(capability, name) == "modal-service:" + a && Identity(other, otherName) == "modal-service:" + b;
    assert ("modal-service:" + a)[14..] == a && ("modal-service:" + b)[14..] == b;
    if Identity(capability, name) == Identity(other, otherName) {
      assert a == b;
      assert a[..|capability|] == capability && b[..|other|] == other;
      assert a[|capability|] == ':' && b[|other|] == ':';
      assert forall c | c in OWNERS_FOR_CAPABILITY :: ':' !in c;
      assert a[|capability| + 1..] == name && b[|other| + 1..] == otherName;
    }
  }
}
