/** Conversion of a watched Kubernetes Service into a HostState, with the
    naming policy for its records (pkg/service/service.go). */
module Service {
  import opened StateFile
  import opened Decimal

  /** The fields of a corev1.Service that the conversion reads: the object
      name and namespace, its labels, the IPs of its load-balancer ingress
      entries (Status.LoadBalancer.Ingress[i].IP, in the reported order)
      and Spec.ClusterIP. */
  datatype Service = Service(
    name: string,
    namespace: string,
    labels: map<string, string>,
    ingressIPs: seq<string>,
    clusterIP: string)

  /** Value of a label, or the empty string when the label is absent, as a
      Go map lookup yields. */
  function LabelValue(svc: Service, key: string): string
  {
    if key in svc.labels then svc.labels[key] else ""
  }

  /** The base name of the records: the name label when it is non-empty,
      the object name otherwise. */
  function BaseName(svc: Service, nameLabel: string): string
  {
    var labelled := LabelValue(svc, nameLabel);
    if labelled == "" then svc.name else labelled
  }

  /** The fixed-format reference to the source object. */
  function ReferenceOf(svc: Service): string
  {
    "k8s: " + svc.namespace + " service/" + svc.name
  }

  /** Name of the record for ingress entry i. */
  function ItemName(base: string, i: nat): string
  {
    if i == 0 then base else base + "-" + DecimalString(i)
  }

  /** Name of the record for the cluster IP. */
  function ClusterName(base: string): string
  {
    base + "-cluster"
  }

  /** The external records: record i carries ingress IP i, in ingress
      order, under the name for entry i. */
  function ExternalItems(base: string, ips: seq<string>): seq<HostInfo>
  {
    seq(|ips|, i requires 0 <= i < |ips| => HostInfo(ItemName(base, i), ips[i], "external"))
  }

  /** The optional internal record for a non-empty cluster IP. */
  function ClusterItems(base: string, clusterIP: string): seq<HostInfo>
  {
    if clusterIP == "" then [] else [HostInfo(ClusterName(base), clusterIP, "internal")]
  }

  /** The HostState a service converts to. */
  function HostStateOf(svc: Service, nameLabel: string): HostState
  {
    var base := BaseName(svc, nameLabel);
    HostState(ReferenceOf(svc), ExternalItems(base, svc.ingressIPs) + ClusterItems(base, svc.clusterIP))
  }

  /** Converts a service to its HostState: one "external" record per
      ingress entry, in order, then an "internal" record for a non-empty
      cluster IP. */
  method ToHostState(svc: Service, nameLabel: string) returns (hs: HostState)
    ensures hs == HostStateOf(svc, nameLabel)
  {
    var name := LabelValue(svc, nameLabel);
    if name == "" {
      name := svc.name;
    }
    hs := HostState("k8s: " + svc.namespace + " service/" + svc.name, []);
    var i := 0;
    while i < |svc.ingressIPs|
      invariant 0 <= i <= |svc.ingressIPs|
      invariant hs == HostState(ReferenceOf(svc), ExternalItems(name, svc.ingressIPs[..i]))
    {
      var n: string;
      if i == 0 {
        n := name;
      } else {
        n := name + "-" + DecimalString(i);
      }
      assert svc.ingressIPs[..i + 1][..i] == svc.ingressIPs[..i];
      hs := hs.(items := hs.items + [HostInfo(n, svc.ingressIPs[i], "external")]);
      i := i + 1;
    }
    assert svc.ingressIPs[..i] == svc.ingressIPs;
    if svc.clusterIP != "" {
      hs := hs.(items := hs.items + [HostInfo(name + "-cluster", svc.clusterIP, "internal")]);
    }
  }

  /** Pairs the conversion with the comparison against the previous state:
      the new state, and whether it differs from `prev`. */
  function Updated(prev: HostState, svc: Service, nameLabel: string): (HostState, bool)
  {
    var newh := HostStateOf(svc, nameLabel);
    (newh, Differs(prev, newh))
  }

  /** The base name falls back to the object name when the label is absent
      and when it is present but empty. */
  lemma BaseNameChoice(svc: Service, nameLabel: string)
    ensures nameLabel in svc.labels && svc.labels[nameLabel] != "" ==>
      BaseName(svc, nameLabel) == svc.labels[nameLabel]
    ensures nameLabel !in svc.labels || svc.labels[nameLabel] == "" ==>
      BaseName(svc, nameLabel) == svc.name
  {
  }

  /** The shape of a converted state: its reference always uses the object
      name; one external record per ingress entry, in ingress order, the
      first carrying the base name and entry i > 0 carrying base-i; then,
      only for a non-empty cluster IP, a last internal record base-cluster,
      the only internal record. */
  lemma HostStateOfShape(svc: Service, nameLabel: string)
    ensures HostStateOf(svc, nameLabel).reference == "k8s: " + svc.namespace + " service/" + svc.name
    ensures |HostStateOf(svc, nameLabel).items| ==
      |svc.ingressIPs| + (if svc.clusterIP != "" then 1 else 0)
    ensures forall i :: 0 <= i < |svc.ingressIPs| ==>
      HostStateOf(svc, nameLabel).items[i] == HostInfo(
        if i == 0 then BaseName(svc, nameLabel)
        else BaseName(svc, nameLabel) + "-" + DecimalString(i),
        svc.ingressIPs[i], "external")
    ensures svc.clusterIP != "" ==>
      HostStateOf(svc, nameLabel).items[|svc.ingressIPs|] ==
        HostInfo(BaseName(svc, nameLabel) + "-cluster", svc.clusterIP, "internal")
    ensures forall i :: 0 <= i < |HostStateOf(svc, nameLabel).items| ==>
      (HostStateOf(svc, nameLabel).items[i].target == "internal" <==>
       svc.clusterIP != "" && i == |svc.ingressIPs|)
  {
    var base := BaseName(svc, nameLabel);
    var items := HostStateOf(svc, nameLabel).items;
    forall i | 0 <= i < |items|
      ensures items[i].target == "internal" <==> svc.clusterIP != "" && i == |svc.ingressIPs|
    {
      if i < |svc.ingressIPs| {
        assert items[i].target == "external";
      }
    }
  }

  /** A name of the form base-d with d a decimal index is never base-cluster. */
  lemma IndexedNameNotCluster(base: string, i: nat)
    ensures base + "-" + DecimalString(i) != ClusterName(base)
  {
    DecimalStringDigits(i);
    var k := |base| + 1;
    assert (base + "-" + DecimalString(i))[k] == DecimalString(i)[0];
    assert ClusterName(base)[k] == 'c';
  }

  /** Record names for different ingress entries differ. */
  lemma ItemNamesDistinct(base: string, i: nat, j: nat)
    requires i != j
    ensures ItemName(base, i) != ItemName(base, j)
  {
    DecimalStringDigits(i);
    DecimalStringDigits(j);
    if i != 0 && j != 0 && ItemName(base, i) == ItemName(base, j) {
      var k := |base| + 1;
      assert ItemName(base, i)[k..] == DecimalString(i);
      assert ItemName(base, j)[k..] == DecimalString(j);
      DecimalStringInjective(i, j);
    }
  }

  /** All record names of a converted state are pairwise distinct. */
  lemma NamesDistinct(svc: Service, nameLabel: string)
    ensures forall i, j :: 0 <= i < j < |HostStateOf(svc, nameLabel).items| ==>
      HostStateOf(svc, nameLabel).items[i].name != HostStateOf(svc, nameLabel).items[j].name
  {
    var base := BaseName(svc, nameLabel);
    var items := HostStateOf(svc, nameLabel).items;
    var n := |svc.ingressIPs|;
    forall i, j | 0 <= i < j < |items| ensures items[i].name != items[j].name {
      if j < n {
        ItemNamesDistinct(base, i, j);
      } else {
        assert items[j].name == ClusterName(base);
        if i == 0 {
          assert |items[j].name| > |base|;
        } else {
          IndexedNameNotCluster(base, i);
        }
      }
    }
  }

  /** Updated returns the converted state, and reports a change exactly
      when that state is not the previous one. */
  lemma UpdatedReportsChange(prev: HostState, svc: Service, nameLabel: string)
    ensures Updated(prev, svc, nameLabel).0 == HostStateOf(svc, nameLabel)
    ensures Updated(prev, svc, nameLabel).1 <==> prev != HostStateOf(svc, nameLabel)
  {
    DiffersIsInequality(prev, HostStateOf(svc, nameLabel));
  }

  /** Comparing a service with its own conversion reports no change. */
  lemma UpdatedUnchanged(svc: Service, nameLabel: string)
    ensures Updated(HostStateOf(svc, nameLabel), svc, nameLabel) == (HostStateOf(svc, nameLabel), false)
  {
    DiffersIrreflexive(HostStateOf(svc, nameLabel));
  }

  /** Every converted reference starts with "k8s: ", so no converted state
      equals the zero state. */
  lemma ConvertedDiffersFromZero(svc: Service, nameLabel: string)
    ensures HostStateOf(svc, nameLabel).reference[..5] == "k8s: "
    ensures Differs(ZeroState(), HostStateOf(svc, nameLabel))
  {
    assert |HostStateOf(svc, nameLabel).reference| >= 5;
  }
}
