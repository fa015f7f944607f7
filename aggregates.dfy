/** The two host filters of notify.py over Nova's host aggregates:
    `get_hosts_by_aggregates` (hosts of the aggregates named on the
    command line) and `get_hosts_by_zones` (hosts of the aggregates whose
    availability zone is one of those named). The aggregate list is the
    one Nova has already returned; fetching it is not modelled. */
module Aggregates {

  /** A host aggregate as Nova reports it: its name, its member hosts and
      its metadata, where an availability zone is the value of the key
      `availability_zone`. */
  datatype Aggregate = Aggregate(name: string, hosts: seq<string>, metadata: map<string, string>)

  const ZoneKey: string := "availability_zone"

  /** The aggregate belongs to one of `zones`: its metadata has the zone
      key and the value is listed. */
  predicate InZones(aggregate: Aggregate, zones: seq<string>) {
    ZoneKey in aggregate.metadata && aggregate.metadata[ZoneKey] in zones
  }

  /** `get_hosts_by_aggregates`: every host of every aggregate whose name
      is listed, gathered into a set. */
  function HostsByAggregates(aggregates: seq<Aggregate>, names: seq<string>): (hosts: set<string>)
    ensures forall h :: h in hosts <==>
              exists i :: 0 <= i < |aggregates| && aggregates[i].name in names && h in aggregates[i].hosts
  {
    if aggregates == [] then {}
    else
      var rest := HostsByAggregates(aggregates[1..], names);
      var first := if aggregates[0].name in names then set h | h in aggregates[0].hosts else {};
      assert forall i :: 1 <= i < |aggregates| ==> aggregates[i] == aggregates[1..][i - 1];
      first + rest
  }

  /** `get_hosts_by_zones`: every host of every aggregate in one of the
      listed zones, gathered into a set; an aggregate without a zone
      contributes nothing. */
  function HostsByZones(aggregates: seq<Aggregate>, zones: seq<string>): (hosts: set<string>)
    ensures forall h :: h in hosts <==>
              exists i :: 0 <= i < |aggregates| && InZones(aggregates[i], zones) && h in aggregates[i].hosts
  {
    if aggregates == [] then {}
    else
      var rest := HostsByZones(aggregates[1..], zones);
      var first := if InZones(aggregates[0], zones) then set h | h in aggregates[0].hosts else {};
      assert forall i :: 1 <= i < |aggregates| ==> aggregates[i] == aggregates[1..][i - 1];
      first + rest
  }

  /** The names of the aggregates that lie in one of `zones`, in order. */
  function NamesInZones(aggregates: seq<Aggregate>, zones: seq<string>): (names: seq<string>)
    ensures forall i :: 0 <= i < |aggregates| && InZones(aggregates[i], zones) ==> aggregates[i].name in names
  {
    if aggregates == [] then []
    else
      var rest := NamesInZones(aggregates[1..], zones);
      assert forall i :: 1 <= i < |aggregates| ==> aggregates[i] == aggregates[1..][i - 1];
      (if InZones(aggregates[0], zones) then [aggregates[0].name] else []) + rest
  }

  /** A host is never lost by filtering on zones instead of on the names of
      the aggregates in those zones, and when aggregate names are unique
      the two filters agree exactly. */
  lemma ZonesWithinNames(aggregates: seq<Aggregate>, zones: seq<string>)
    ensures HostsByZones(aggregates, zones) <= HostsByAggregates(aggregates, NamesInZones(aggregates, zones))
    ensures UniqueNames(aggregates) ==>
              HostsByZones(aggregates, zones) == HostsByAggregates(aggregates, NamesInZones(aggregates, zones))
  {
    var names := NamesInZones(aggregates, zones);
    if UniqueNames(aggregates) {
      forall h | h in HostsByAggregates(aggregates, names) ensures h in HostsByZones(aggregates, zones) {
        var i :| 0 <= i < |aggregates| && aggregates[i].name in names && h in aggregates[i].hosts;
        NameInZonesHasZone(aggregates, zones, aggregates[i].name);
      }
    }
  }

  predicate UniqueNames(aggregates: seq<Aggregate>) {
    forall i, j :: 0 <= i < j < |aggregates| ==> aggregates[i].name != aggregates[j].name
  }

  /** A name NamesInZones lists is the name of an aggregate in one of the
      zones. */
  lemma {:induction false} NameInZonesHasZone(aggregates: seq<Aggregate>, zones: seq<string>, name: string)
    requires name in NamesInZones(aggregates, zones)
    ensures exists i :: 0 <= i < |aggregates| && aggregates[i].name == name && InZones(aggregates[i], zones)
  {
    var rest := NamesInZones(aggregates[1..], zones);
    if InZones(aggregates[0], zones) && name == aggregates[0].name {
      assert aggregates[0].name == name;
    } else {
      assert name in rest;
      NameInZonesHasZone(aggregates[1..], zones, name);
      var i :| 0 <= i < |aggregates[1..]| && aggregates[1..][i].name == name && InZones(aggregates[1..][i], zones);
      assert aggregates[i + 1] == aggregates[1..][i];
    }
  }
}
