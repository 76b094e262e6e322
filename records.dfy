/**
 * The record policy of main.c: how one line of the input file is decoded,
 * which station it names, and what it does to the station table. The
 * tables here are the `Entries` of the index trees in Avl.
 */
module Records {
  import opened Avl

  datatype Option<T> = None | Some(value: T)

  // ---------------------------------------------------------------------------
  // Field decoding
  // ---------------------------------------------------------------------------

  /** `isdigit` */
  predicate IsDigit(c: char) {
    '0' <= c <= '9'
  }

  predicate AllDigits(s: string) {
    forall i :: 0 <= i < |s| ==> IsDigit(s[i])
  }

  /** The test `isdigit(field[0])`: a field holds a number exactly when its
      first character is a digit ("-" marks an absent one). An empty field
      is read as its terminating NUL, which is not a digit. */
  predicate Present(s: string) {
    |s| > 0 && IsDigit(s[0])
  }

  /** The length of the longest run of digits at the start of `s`. */
  function DigitRun(s: string): (n: nat)
    ensures n <= |s| && AllDigits(s[..n])
    ensures n < |s| ==> !IsDigit(s[n])
    ensures n > 0 <==> Present(s)
  {
    if Present(s) then
      var n := 1 + DigitRun(s[1..]);
      assert s[..n] == [s[0]] + s[1..][..n - 1];
      n
    else 0
  }

  /** The decimal value of a string of digits, most significant first. */
  function DecimalValue(s: string): nat
    requires AllDigits(s)
  {
    if s == [] then 0
    else 10 * DecimalValue(s[..|s| - 1]) + (s[|s| - 1] as int - '0' as int)
  }

  /** `atoi`/`atoll` on a field that starts with a digit: the value of the
      leading run of digits; whatever follows (the newline `fgets` keeps on
      the last field, say) is ignored. */
  function Atoi(s: string): nat {
    DecimalValue(s[..DigitRun(s)])
  }

  /** An id field (`powerPlant`, `hvb`, `hva`, `lv`, `company`,
      `individual`): its value when present, otherwise the -1 it was
      initialised with. */
  function DecodeId(s: string): (v: int)
    ensures v == -1 <==> !Present(s)
    ensures v >= -1
  {
    if Present(s) then Atoi(s) else -1
  }

  /** A `capacity` or `load` field: its value when present, otherwise the 0
      it was initialised with. */
  function DecodeAmount(s: string): (v: int)
    ensures v >= 0
    ensures !Present(s) ==> v == 0
  {
    if Present(s) then Atoi(s) else 0
  }

  /** The decimal spelling of `n`, as numbers are written in the input. */
  function Decimal(n: nat): (s: string)
    ensures |s| > 0 && AllDigits(s)
  {
    if n < 10 then [('0' as int + n) as char]
    else Decimal(n / 10) + [('0' as int + n % 10) as char]
  }

  lemma {:induction false} DecimalValueOfDecimal(n: nat)
    ensures DecimalValue(Decimal(n)) == n
  {
    var s := Decimal(n);
    if n >= 10 {
      DecimalValueOfDecimal(n / 10);
      assert s[..|s| - 1] == Decimal(n / 10);
    }
  }

  /** A number written in decimal and followed by anything that does not
      start with a digit (a newline, or nothing) is read back as itself, as
      an id and as an amount; a "-" field reads as absent. */
  lemma DecodeDecimal(n: nat, rest: string)
    requires rest == [] || !IsDigit(rest[0])
    ensures DecodeId(Decimal(n) + rest) == n
    ensures DecodeAmount(Decimal(n) + rest) == n
    ensures DecodeId("-" + rest) == -1 && DecodeAmount("-" + rest) == 0
  {
    var d := Decimal(n);
    var s := d + rest;
    assert s[..|d|] == d;
    assert AllDigits(s[..|d|]);
    assert DigitRun(s) == |d|;
    DecimalValueOfDecimal(n);
    assert ("-" + rest)[0] == '-';
  }

  // ---------------------------------------------------------------------------
  // Records and tier selection
  // ---------------------------------------------------------------------------

  /** The eight decoded fields of a line. */
  datatype Record = Record(
    powerPlant: int, hvb: int, hva: int, lv: int, company: int, individual: int,
    capacity: int, load: int)

  /** A line, given as the tokens `strtok` cuts it into at ';': a line with
      fewer than eight tokens is skipped (`continue`); tokens past the
      eighth are ignored. */
  function Decode(fields: seq<string>): (r: Option<Record>)
    ensures r.None? <==> |fields| < 8
    ensures r.Some? ==>
      && (r.value.hvb == -1 <==> !Present(fields[1]))
      && (r.value.hva == -1 <==> !Present(fields[2]))
      && (r.value.lv == -1 <==> !Present(fields[3]))
      && r.value.capacity >= 0 && r.value.load >= 0
      && (!Present(fields[6]) ==> r.value.capacity == 0)
      && (!Present(fields[7]) ==> r.value.load == 0)
  {
    if |fields| < 8 then None
    else Some(Record(
      DecodeId(fields[0]), DecodeId(fields[1]), DecodeId(fields[2]), DecodeId(fields[3]),
      DecodeId(fields[4]), DecodeId(fields[5]),
      DecodeAmount(fields[6]), DecodeAmount(fields[7])))
  }

  /** The station id of the requested tier: the `hvb`, `hva` or `lv` field
      for the station types "hvb", "hva" and "lv" (-1 when that field is
      absent), and -1 for any other station type. */
  function SelectId(rec: Record, stationType: string): (id: int)
    ensures stationType == "hvb" ==> id == rec.hvb
    ensures stationType == "hva" ==> id == rec.hva
    ensures stationType == "lv" ==> id == rec.lv
    ensures stationType !in {"hvb", "hva", "lv"} ==> id == -1
  {
    if stationType == "hvb" && rec.hvb != -1 then rec.hvb
    else if stationType == "hva" && rec.hva != -1 then rec.hva
    else if stationType == "lv" && rec.lv != -1 then rec.lv
    else -1
  }

  /** What a line asks of the station table: the selected station id (-1
      for none), the capacity and the load. */
  datatype Event = Event(id: int, capacity: int, load: int)

  /** A skipped line selects no station. */
  function EventOf(fields: seq<string>, stationType: string): (e: Event)
    ensures e.id >= -1 && e.capacity >= 0 && e.load >= 0
    ensures |fields| < 8 ==> e.id == -1
  {
    match Decode(fields)
    case None => Event(-1, 0, 0)
    case Some(rec) => Event(SelectId(rec, stationType), rec.capacity, rec.load)
  }

  // ---------------------------------------------------------------------------
  // One record applied to the station table
  // ---------------------------------------------------------------------------

  /** The body of the read loop on the table: no station selected, nothing
      happens; a capacity > 0 for an unknown id creates the line
      (id, capacity, 0); then a load > 0 is added to the consumption of the
      selected line, if there is one. */
  function Apply(m: map<int, Entry>, e: Event): (m': map<int, Entry>)
    ensures e.id == -1 ==> m' == m
    ensures forall k :: k != e.id ==> (k in m' <==> k in m)
    ensures forall k :: k != e.id && k in m ==> m'[k] == m[k]
    ensures e.id != -1 ==> (e.id in m' <==> e.id in m || e.capacity > 0)
    ensures e.id != -1 && e.id in m ==>
      m'[e.id] == m[e.id].(consumption := m[e.id].consumption + Max(e.load, 0))
    ensures e.id != -1 && e.id !in m && e.capacity > 0 ==>
      m'[e.id] == Entry(e.id, e.capacity, Max(e.load, 0))
  {
    if e.id == -1 then m
    else
      var m1 := if e.capacity > 0 && e.id !in m then m[e.id := Entry(e.id, e.capacity, 0)] else m;
      if e.id in m1 && e.load > 0 then Credit(m1, e.id, e.load) else m1
  }

  /** The same body on the tree: `search`, `insert` when the capacity is
      positive and the id unknown, `search` again, then the write of
      `consumption += load` on the node found. */
  function ApplyTree(t: Tree, e: Event): Tree {
    if e.id == -1 then t
    else
      var t1 := if e.capacity > 0 && Search(t, e.id).Leaf? then Insert(t, e.id, e.capacity) else t;
      if Search(t1, e.id).Branch? && e.load > 0 then AddLoad(t1, e.id, e.load) else t1
  }

  /** On an AVL tree the body keeps an AVL tree and does to its table
      exactly what Apply does; with no station selected the tree is
      untouched. */
  lemma ApplyTreeSpec(t: Tree, e: Event)
    requires IsAvl(t)
    ensures IsAvl(ApplyTree(t, e))
    ensures Entries(ApplyTree(t, e)) == Apply(Entries(t), e)
    ensures e.id == -1 ==> ApplyTree(t, e) == t
  {
    if e.id != -1 {
      var id := e.id;
      InorderVisitsAll(t);
      SearchFinds(t, id);
      var t1 := if e.capacity > 0 && Search(t, id).Leaf? then Insert(t, id, e.capacity) else t;
      var m1 := if e.capacity > 0 && id !in Entries(t) then Entries(t)[id := Entry(id, e.capacity, 0)] else Entries(t);
      if e.capacity > 0 && Search(t, id).Leaf? {
        InsertEntries(t, id, e.capacity);
        InsertIsAvl(t, id, e.capacity);
      }
      assert IsAvl(t1) && Entries(t1) == m1;
      InorderVisitsAll(t1);
      SearchFinds(t1, id);
      if Search(t1, id).Branch? && e.load > 0 {
        AddLoadEntries(t1, id, e.load);
        AddLoadShape(t1, id, e.load);
      }
    }
  }

  // ---------------------------------------------------------------------------
  // A stream of records
  // ---------------------------------------------------------------------------

  /** The table after the events, applied first to last to an empty table. */
  function Replay(evs: seq<Event>): map<int, Entry>
    decreases |evs|
  {
    if evs == [] then map[]
    else Apply(Replay(evs[..|evs| - 1]), evs[|evs| - 1])
  }

  function Events(lines: seq<seq<string>>, stationType: string): (evs: seq<Event>)
    ensures |evs| == |lines|
    ensures forall i :: 0 <= i < |lines| ==> evs[i] == EventOf(lines[i], stationType)
  {
    seq(|lines|, i requires 0 <= i < |lines| => EventOf(lines[i], stationType))
  }

  /** The station table after reading the lines (the header already skipped). */
  function Run(lines: seq<seq<string>>, stationType: string): map<int, Entry> {
    Replay(Events(lines, stationType))
  }

  /** Reading one more line applies its event to the table. */
  lemma RunStep(lines: seq<seq<string>>, stationType: string, i: nat)
    requires i < |lines|
    ensures Run(lines[..i + 1], stationType) == Apply(Run(lines[..i], stationType), EventOf(lines[i], stationType))
  {
    var evs := Events(lines[..i + 1], stationType);
    assert evs[..i] == Events(lines[..i], stationType);
  }

  /** Event `e` creates the entry for `k`. */
  predicate Creates(e: Event, k: int) {
    k != -1 && e.id == k && e.capacity > 0
  }

  /** `i` is the first event that creates the entry for `k`. */
  ghost predicate FirstCreation(evs: seq<Event>, k: int, i: int) {
    && 0 <= i < |evs| && Creates(evs[i], k)
    && forall j :: 0 <= j < i ==> !Creates(evs[j], k)
  }

  /** The positive loads of the events for `k`, added up. */
  function LoadSum(evs: seq<Event>, k: int): int
    decreases |evs|
  {
    if evs == [] then 0
    else
      var e := evs[|evs| - 1];
      LoadSum(evs[..|evs| - 1], k) + (if e.id == k then Max(e.load, 0) else 0)
  }

  /** Over a stream of records, a station is in the table exactly when some
      record created it, and its line then holds the capacity of the first
      creating record (later capacities never overwrite it) and, as
      consumption, the sum of the positive loads of the records for it from
      that creating record on, that record's own load included; loads seen
      before it are dropped. */
  lemma {:induction false} ReplayTotals(evs: seq<Event>, k: int)
    ensures k in Replay(evs) <==> exists i :: 0 <= i < |evs| && Creates(evs[i], k)
    ensures forall i :: FirstCreation(evs, k, i) ==>
      k in Replay(evs) && Replay(evs)[k] == Entry(k, evs[i].capacity, LoadSum(evs[i..], k))
    decreases |evs|
  {
    if evs != [] {
      var n := |evs| - 1;
      var init, e := evs[..n], evs[n];
      ReplayTotals(init, k);
      assert forall i :: 0 <= i < n ==> init[i] == evs[i];
      if exists i :: 0 <= i < n && Creates(init[i], k) {
        forall i | FirstCreation(evs, k, i)
          ensures k in Replay(evs) && Replay(evs)[k] == Entry(k, evs[i].capacity, LoadSum(evs[i..], k))
        {
          assert FirstCreation(init, k, i);
          LoadSumSnoc(evs, i);
        }
      } else {
        forall i | FirstCreation(evs, k, i)
          ensures k in Replay(evs) && Replay(evs)[k] == Entry(k, evs[i].capacity, LoadSum(evs[i..], k))
        {
          assert i == n;
          LoadSumSnoc(evs, i);
        }
      }
    }
  }

  /** The sum over a suffix of the events grows by the last event's share. */
  lemma LoadSumSnoc(evs: seq<Event>, i: nat)
    requires i < |evs|
    ensures var n := |evs| - 1;
      LoadSum(evs[i..], evs[n].id) == LoadSum(evs[i..n], evs[n].id) + Max(evs[n].load, 0)
    ensures forall k :: k != evs[|evs| - 1].id ==> LoadSum(evs[i..], k) == LoadSum(evs[i..|evs| - 1], k)
  {
    assert evs[i..][..|evs[i..]| - 1] == evs[i..|evs| - 1];
  }

  /** Two records create and feed station 10, one feeds station 4, and a
      record without a station of the tier changes nothing. */
  lemma ReplayExample()
    ensures Replay([Event(10, 500, 20), Event(10, 500, 30), Event(4, 200, 5), Event(-1, 0, 0)]) ==
            map[4 := Entry(4, 200, 5), 10 := Entry(10, 500, 50)]
  {
    var evs := [Event(10, 500, 20), Event(10, 500, 30), Event(4, 200, 5), Event(-1, 0, 0)];
    assert evs[..0] == [] && evs[..1][..0] == [];
    assert evs[..2][..1] == evs[..1] && evs[..3][..2] == evs[..2] && evs[..4] == evs;
    assert evs[..4][..3] == evs[..3];
    var m1 := Replay(evs[..1]);
    assert |evs[..1]| == 1 && evs[..1] != [];
    assert Replay(evs[..1][..0]) == map[];
    assert m1 == Apply(map[], evs[0]);
    assert m1 == map[10 := Entry(10, 500, 20)];
    var m2 := Replay(evs[..2]);
    assert m2 == Apply(m1, evs[1]);
    assert m2 == map[10 := Entry(10, 500, 50)];
    var m3 := Replay(evs[..3]);
    assert m3 == Apply(m2, evs[2]);
    assert m3 == map[4 := Entry(4, 200, 5), 10 := Entry(10, 500, 50)];
    assert Replay(evs) == Apply(m3, evs[3]);
  }
}
