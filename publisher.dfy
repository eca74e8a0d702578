/** The diff publisher of publisher.go. A datagram is modelled as the list
    of its fields in declaration order, each with its name and a value
    tagged by kind, instead of being walked by reflection; float fields
    carry exact reals. The MQTT client is replaced by the list of
    (topic, value) pairs the publisher would send. */
module DiffPublisher {
  import opened Prelude

  /** A field value by kind: float32, int, string, or anything else (the
      capture timestamp, in ns). */
  datatype Value = Float(f: real) | Int(i: int64) | Str(s: string) | Time(t: int)

  datatype Field = Field(name: string, value: Value)

  /** A snapshot: its fields in declaration order. */
  type Datagram = seq<Field>

  /** One MQTT publish: the topic and the value sent (formatting not modelled). */
  datatype Emission = Emission(topic: string, value: Value)

  /** The process status the publisher tracks. */
  datatype Status = Status(reader: string, interpreter: string, publisher: string, init: string)

  /** Float fields are published when they moved by more than this. */
  const Tolerance: real := 0.00001

  predicate SameKind(a: Value, b: Value) {
    (a.Float? && b.Float?) || (a.Int? && b.Int?) || (a.Str? && b.Str?) || (a.Time? && b.Time?)
  }

  /** Two datagrams of the same Go type: same field names and kinds, in the same order. */
  predicate SameShape(a: Datagram, b: Datagram) {
    |a| == |b| &&
    forall i :: 0 <= i < |a| ==> a[i].name == b[i].name && SameKind(a[i].value, b[i].value)
  }

  lemma SameShapeThrough(a: Datagram, b: Datagram, c: Datagram)
    requires SameShape(a, b) && SameShape(a, c)
    ensures SameShape(b, c) && SameShape(c, b)
  {
  }

  function Abs(x: real): real {
    if x < 0.0 then -x else x
  }

  /** publishMQTT's per-field test: a float is sent when it moved by more
      than the tolerance, an int when the absolute value of the (64-bit,
      wrapping) difference exceeds the tolerance, a string when it differs,
      and any other field (the timestamp) always. */
  predicate Changed(before: Value, after: Value)
    requires SameKind(before, after)
    ensures after.Float? ==>
              (Changed(before, after) <==>
                 before.f - after.f > Tolerance || after.f - before.f > Tolerance)
    ensures after.Str? ==> (Changed(before, after) <==> before.s != after.s)
    ensures after.Time? ==> Changed(before, after)
    ensures Changed(before, after) ==> after.Time? || before != after
  {
    match after
    case Float(n) => Abs(before.f - n) > Tolerance
    case Int(n) => Abs(WrapInt64(before.i as int - n as int) as real) > Tolerance
    case Str(n) => before.s != n
    case Time(_) => true
  }

  /** The tolerance test on ints is plain inequality, in spite of the
      wrapping subtraction. */
  lemma ChangedIntIffDiffer(a: int64, b: int64)
    ensures Changed(Int(a), Int(b)) <==> a != b
  {
  }

  /** Which fields are sent does not depend on which snapshot is the old one,
      and a value is sent against itself exactly when it is a timestamp. */
  lemma ChangedSymmetric(a: Value, b: Value)
    requires SameKind(a, b)
    ensures Changed(a, b) == Changed(b, a)
    ensures Changed(b, b) <==> b.Time?
  {
  }

  /** The emissions for fields `cur[..]` against `prev[..]`, one per changed
      field, in field order. */
  function Diff(root: string, prev: Datagram, cur: Datagram): (out: seq<Emission>)
    requires SameShape(prev, cur)
    ensures |out| <= |cur|
    decreases |cur|
  {
    if cur == [] then []
    else
      var k := |cur| - 1;
      Diff(root, prev[..k], cur[..k]) +
      (if Changed(prev[k].value, cur[k].value) then [Emission(root + cur[k].name, cur[k].value)] else [])
  }

  /** The indices of the fields that changed, in increasing order. */
  function Changes(prev: Datagram, cur: Datagram): (idx: seq<nat>)
    requires SameShape(prev, cur)
    ensures forall k :: 0 <= k < |idx| ==> idx[k] < |cur|
    ensures forall k, l :: 0 <= k < l < |idx| ==> idx[k] < idx[l]
    ensures forall i :: 0 <= i < |cur| ==> (i in idx <==> Changed(prev[i].value, cur[i].value))
    decreases |cur|
  {
    if cur == [] then []
    else
      var k := |cur| - 1;
      Changes(prev[..k], cur[..k]) + (if Changed(prev[k].value, cur[k].value) then [k] else [])
  }

  /** Field order, at most once each: the k-th emission is the topic root plus
      the name, and the new value, of the k-th changed field. */
  lemma {:induction false} DiffFollowsFieldOrder(root: string, prev: Datagram, cur: Datagram)
    requires SameShape(prev, cur)
    ensures var out, idx := Diff(root, prev, cur), Changes(prev, cur);
            |out| == |idx| &&
            forall k :: 0 <= k < |out| ==>
              out[k] == Emission(root + cur[idx[k]].name, cur[idx[k]].value)
    decreases |cur|
  {
    if cur != [] {
      var k := |cur| - 1;
      DiffFollowsFieldOrder(root, prev[..k], cur[..k]);
    }
  }

  /** The emissions of the timestamp fields of `d`, in field order. */
  function TimeFields(root: string, d: Datagram): seq<Emission>
    decreases |d|
  {
    if d == [] then []
    else
      var k := |d| - 1;
      TimeFields(root, d[..k]) +
      (if d[k].value.Time? then [Emission(root + d[k].name, d[k].value)] else [])
  }

  /** Publishing a snapshot against itself sends only its timestamp fields. */
  lemma {:induction false} DiffOfSameSnapshot(root: string, d: Datagram)
    ensures SameShape(d, d)
    ensures Diff(root, d, d) == TimeFields(root, d)
    decreases |d|
  {
    if d != [] {
      var k := |d| - 1;
      DiffOfSameSnapshot(root, d[..k]);
      ChangedSymmetric(d[k].value, d[k].value);
    }
  }

  /** A string field named "Status" (the datagram's Status field). */
  predicate IsStatusField(f: Field) {
    f.name == "Status" && f.value.Str?
  }

  /** The value of the datagram's "Status" string field ("" if it has none). */
  function StatusOf(d: Datagram): (s: string)
    ensures (forall i :: 0 <= i < |d| ==> !IsStatusField(d[i])) ==> s == ""
    ensures forall i ::
              (0 <= i < |d| && IsStatusField(d[i]) && forall j :: 0 <= j < i ==> !IsStatusField(d[j]))
              ==> s == d[i].value.s
    decreases |d|
  {
    if d == [] then ""
    else if IsStatusField(d[0]) then d[0].value.s
    else StatusOf(d[1..])
  }

  class Publisher {
    /** "/solar/<topic>/" when a broker is configured. */
    const topicRoot: string
    /** Whether MQTT options exist (a broker was configured). */
    const mqtt: bool
    /** What NewDatagram() returns. */
    const blank: Datagram
    var data: Option<Datagram>
    var prevData: Option<Datagram>
    var status: Status

    /** Both snapshots present and of the datagram type. */
    ghost predicate Valid()
      reads this
    {
      data.Some? && prevData.Some? &&
      SameShape(blank, data.value) && SameShape(blank, prevData.value)
    }

    /** NewPublisher: an empty status, the current and previous snapshots both
        the fresh datagram, and the topic root when a broker is set. */
    constructor (broker: string, topic: string, blank: Datagram)
      ensures Valid()
      ensures this.blank == blank && data == Some(blank) && prevData == data
      ensures status == Status("", "", "", "")
      ensures mqtt == (broker != "")
      ensures topicRoot == if broker != "" then "/solar/" + topic + "/" else ""
    {
      this.blank := blank;
      data := Some(blank);
      prevData := Some(blank);
      status := Status("", "", "", "");
      mqtt := broker != "";
      topicRoot := if broker != "" then "/solar/" + topic + "/" else "";
    }

    /** publishMQTT: nothing when there is no current snapshot; otherwise,
        walking the fields in order, one publish per field that changed. */
    method PublishMQTT() returns (sent: seq<Emission>)
      requires data.Some? ==> prevData.Some? && SameShape(prevData.value, data.value)
      ensures data.None? ==> sent == []
      ensures data.Some? ==> sent == Diff(topicRoot, prevData.value, data.value)
    {
      if data.None? {
        return [];
      }
      var prev, cur := prevData.value, data.value;
      sent := [];
      var i := 0;
      while i < |cur|
        invariant 0 <= i <= |cur|
        invariant SameShape(prev[..i], cur[..i])
        invariant sent == Diff(topicRoot, prev[..i], cur[..i])
      {
        assert prev[..i + 1][..i] == prev[..i] && cur[..i + 1][..i] == cur[..i];
        if Changed(prev[i].value, cur[i].value) {
          sent := sent + [Emission(topicRoot + cur[i].name, cur[i].value)];
        }
        i := i + 1;
      }
      assert prev[..i] == prev && cur[..i] == cur;
    }

    /** One cycle of listen: copies the interpreter, reader and init statuses,
        rotates the snapshots (the supplier's datagram, or a fresh one when it
        has none), records the publisher status and, with MQTT, publishes
        the difference. */
    method ListenCycle(supplied: Option<Datagram>, interpreterStatus: string,
                       readerStatus: string, initStatus: string, now: int)
      returns (sent: seq<Emission>)
      requires Valid()
      requires supplied.Some? ==> SameShape(blank, supplied.value)
      modifies this
      ensures Valid()
      ensures prevData == old(data)
      ensures data == if supplied.Some? then supplied else Some(blank)
      ensures status == Status(readerStatus, interpreterStatus,
                               if supplied.Some? then "Data:" + StatusOf(supplied.value)
                               else "No datagram on " + ClockText(now),
                               initStatus)
      ensures sent == if mqtt then Diff(topicRoot, prevData.value, data.value) else []
    {
      status := status.(interpreter := interpreterStatus, reader := readerStatus, init := initStatus);
      if supplied.Some? {
        status := status.(publisher := "Data:" + StatusOf(supplied.value));
        prevData := data;
        data := supplied;
      } else {
        status := status.(publisher := "No datagram on " + ClockText(now));
        prevData := data;
        data := Some(blank);
      }
      SameShapeThrough(blank, prevData.value, data.value);
      sent := [];
      if mqtt {
        sent := PublishMQTT();
      }
    }
  }
}
