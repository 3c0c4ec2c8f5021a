/** `AdabasStore`: an in-memory stand-in for an Adabas file, holding records
    by their internal sequence number (ISN).

    `store` hands out ISNs from a counter that only ever goes up; `update`
    replaces a record under an ISN it already holds; `delete` removes one.
    The record type is a parameter, and a record's own ISN (`getIsn()` of an
    `AdabasRecord`) is passed beside it. */
module Adabas {
  import opened Results
  import opened Numbers

  datatype AdabasStore<T> = AdabasStore(records: map<int, T>, maxIsn: Int32)

  /** A new store: no records, and the counter at 0. */
  function Empty<T>(): AdabasStore<T> {
    AdabasStore(map[], 0)
  }

  /** What the store keeps while its counter has not wrapped: every ISN it
      holds was handed out, so lies between 1 and the counter. */
  predicate Valid<T>(s: AdabasStore<T>) {
    && 0 <= s.maxIsn
    && forall isn :: isn in s.records ==> 1 <= isn <= s.maxIsn
  }

  /** `store(viewName, record)`: raise the counter by one (a Java `int`, so
      it wraps past `0x7FFF_FFFF`), put the record under it and return it.
      Below the top of the range the ISN is new, so nothing is overwritten,
      and the records held before are all still there. */
  function Store<T>(s: AdabasStore<T>, record: T): (r: (AdabasStore<T>, Int32))
    ensures r.1 == r.0.maxIsn && r.1 in r.0.records && r.0.records[r.1] == record
    ensures s.maxIsn < 0x7FFF_FFFF ==> r.1 == s.maxIsn + 1
    ensures Valid(s) && s.maxIsn < 0x7FFF_FFFF ==>
      && r.1 !in s.records
      && r.0.records.Keys == s.records.Keys + {r.1}
      && (forall isn :: isn in s.records ==> r.0.records[isn] == s.records[isn])
      && Valid(r.0)
  {
    var isn := Wrap32(s.maxIsn + 1);
    (AdabasStore(s.records[isn := record], isn), isn)
  }

  /** At the top of the range the counter wraps, and the next ISN handed
      out is the most negative `int`. */
  lemma StoreWrapsAtTop<T>(s: AdabasStore<T>, record: T)
    requires s.maxIsn == 0x7FFF_FFFF
    ensures Store(s, record).1 == -0x8000_0000
  {
  }

  /** `update(record)`: replace the record held under `isn`, or throw and
      change nothing when there is none. */
  function Update<T>(s: AdabasStore<T>, isn: int, record: T): (r: Result<AdabasStore<T>>)
    ensures r.Err? <==> isn !in s.records
    ensures r.Err? ==> r.error == NaturalException(RecordNotFound)
    ensures r.Ok? ==>
      && r.value.maxIsn == s.maxIsn
      && r.value.records.Keys == s.records.Keys
      && r.value.records[isn] == record
      && forall k :: k in s.records && k != isn ==> r.value.records[k] == s.records[k]
  {
    if isn in s.records then Ok(s.(records := s.records[isn := record]))
    else Err(NaturalException(RecordNotFound))
  }

  /** `delete(record)`: remove the record held under `isn`, if any. The
      counter stays where it is, so the ISN is not handed out again. */
  function Delete<T>(s: AdabasStore<T>, isn: int): (r: AdabasStore<T>)
    ensures r.maxIsn == s.maxIsn
    ensures r.records.Keys == s.records.Keys - {isn}
    ensures forall k :: k in r.records ==> r.records[k] == s.records[k]
  {
    s.(records := s.records - {isn})
  }

  /** `getByISN(BigDecimal isn)` as written: the map's keys are `Integer`s
      and a `BigDecimal` never equals an `Integer`, so the lookup finds
      nothing and the call always throws. */
  function GetByIsnAsWritten<T>(s: AdabasStore<T>, isn: int): (r: Result<T>)
    ensures r == Err(NaturalException(RecordNotFound))
  {
    Err(NaturalException(RecordNotFound))
  }

  /** `getByISN` as evidently intended: the record held under the ISN, or
      the same exception when there is none. */
  function GetByIsn<T>(s: AdabasStore<T>, isn: int): (r: Result<T>)
    ensures r.Ok? <==> isn in s.records
    ensures r.Ok? ==> r.value == s.records[isn]
    ensures r.Err? ==> r.error == NaturalException(RecordNotFound)
  {
    if isn in s.records then Ok(s.records[isn])
    else Err(NaturalException(RecordNotFound))
  }

  /** A record just stored is not found by the lookup as written, while the
      intended lookup gives it back. */
  lemma StoreThenGet<T>(s: AdabasStore<T>, record: T)
    ensures var (after, isn) := Store(s, record);
      && GetByIsnAsWritten(after, isn).Err?
      && GetByIsn(after, isn) == Ok(record)
  {
  }

  lemma EmptyValid<T>()
    ensures Valid(Empty<T>()) && Empty<T>().records == map[]
  {
  }

  /** Successive stores into a new store hand out 1, 2 and 3. */
  lemma FirstIsns<T>(a: T, b: T, c: T)
    ensures var (s1, i1) := Store(Empty<T>(), a);
      var (s2, i2) := Store(s1, b);
      var (s3, i3) := Store(s2, c);
      && i1 == 1 && i2 == 2 && i3 == 3
      && s3.records == map[1 := a, 2 := b, 3 := c]
  {
  }

  /** Every operation keeps the store valid while the counter has room. */
  lemma UpdateDeleteKeepValid<T>(s: AdabasStore<T>, isn: int, record: T)
    requires Valid(s)
    ensures Update(s, isn, record).Ok? ==> Valid(Update(s, isn, record).value)
    ensures Valid(Delete(s, isn))
  {
  }

  // ---------------------------------------------------------------------
  // ISNs are never reused.

  /** A call on the store. */
  datatype Op<T> = StoreOp(record: T) | UpdateOp(isn: int, replacement: T) | DeleteOp(target: int)

  /** One call: the store after it, and the ISN it handed out, if it was a
      `store`. A failed update leaves the store as it was. */
  function Step<T>(s: AdabasStore<T>, op: Op<T>): (AdabasStore<T>, Option<Int32>) {
    match op
    case StoreOp(record) => var (after, isn) := Store(s, record); (after, Some(isn))
    case UpdateOp(isn, record) => (match Update(s, isn, record) case Ok(after) => after case Err(_) => s, None)
    case DeleteOp(isn) => (Delete(s, isn), None)
  }

  function Run<T>(s: AdabasStore<T>, ops: seq<Op<T>>): AdabasStore<T>
    decreases |ops|
  {
    if ops == [] then s else Run(Step(s, ops[0]).0, ops[1..])
  }

  /** The ISNs a sequence of calls hands out, in order. */
  function Issued<T>(s: AdabasStore<T>, ops: seq<Op<T>>): seq<Int32>
    decreases |ops|
  {
    if ops == [] then []
    else
      var (after, isn) := Step(s, ops[0]);
      (if isn.Some? then [isn.value] else []) + Issued(after, ops[1..])
  }

  /** Over any sequence of calls that does not run the counter past the top
      of the `int` range: the store stays valid, the counter never goes
      down, and the ISNs handed out are strictly increasing and all above
      the counter at the start, so no ISN is handed out twice and no
      `store` overwrites a record. */
  lemma {:induction false} IsnsNeverReused<T>(s: AdabasStore<T>, ops: seq<Op<T>>)
    requires Valid(s) && s.maxIsn + |ops| <= 0x7FFF_FFFF
    ensures Valid(Run(s, ops)) && s.maxIsn <= Run(s, ops).maxIsn
    ensures forall i :: 0 <= i < |Issued(s, ops)| ==> s.maxIsn < Issued(s, ops)[i] <= Run(s, ops).maxIsn
    ensures forall i, j :: 0 <= i < j < |Issued(s, ops)| ==> Issued(s, ops)[i] < Issued(s, ops)[j]
    decreases |ops|
  {
    if ops != [] {
      var (after, isn) := Step(s, ops[0]);
      assert && Valid(after) && s.maxIsn <= after.maxIsn <= s.maxIsn + 1
             && (isn.Some? ==> isn.value == after.maxIsn == s.maxIsn + 1) by {
        match ops[0]
        case StoreOp(record) =>
        case UpdateOp(k, record) => UpdateDeleteKeepValid(s, k, record);
        case DeleteOp(k) =>
      }
      IsnsNeverReused(after, ops[1..]);
    }
  }
}
