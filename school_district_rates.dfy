/**
 * SchoolDistrictRatesController.Index: the list page shows, for each school district in turn,
 * the district's latest rate.
 */
module SchoolDistrictRates {
  import opened Wrappers
  import opened Dates
  import opened Entities

  datatype SchoolDistrictRateView = SchoolDistrictRateView(SchoolDistrict: SchoolDistrict, SchoolDistrictRate: SchoolDistrictRate)

  /** `rates.Where(r => r.SchoolDistrictUid == uid)`: the district's rates, in list order. */
  function RatesOf(rates: seq<SchoolDistrictRate>, uid: int): (rs: seq<SchoolDistrictRate>)
    ensures |rs| <= |rates|
    ensures forall r :: r in rs <==> r in rates && r.SchoolDistrictUid == uid
  {
    if |rates| == 0 then []
    else
      var last := rates[|rates| - 1];
      RatesOf(rates[..|rates| - 1], uid) + (if last.SchoolDistrictUid == uid then [last] else [])
  }

  /** `rs.Max(r => r.EffectiveDate)`: the latest effective date, which some rate has. */
  function MaxEffectiveDate(rs: seq<SchoolDistrictRate>): (d: DateTime)
    requires |rs| > 0
    ensures exists i :: 0 <= i < |rs| && rs[i].EffectiveDate == d
    ensures forall i :: 0 <= i < |rs| ==> rs[i].EffectiveDate <= d
  {
    if |rs| == 1 then rs[0].EffectiveDate
    else
      var m := MaxEffectiveDate(rs[..|rs| - 1]);
      var last := rs[|rs| - 1].EffectiveDate;
      if m < last then last else m
  }

  /** `rs.First(r => r.EffectiveDate == d)`, as a position: the first rate dated d. */
  function FirstDated(rs: seq<SchoolDistrictRate>, d: DateTime): (i: int)
    requires exists k :: 0 <= k < |rs| && rs[k].EffectiveDate == d
    ensures 0 <= i < |rs| && rs[i].EffectiveDate == d
    ensures forall j :: 0 <= j < i ==> rs[j].EffectiveDate != d
  {
    if rs[0].EffectiveDate == d then 0
    else
      assert exists k :: 0 <= k < |rs[1..]| && rs[1..][k].EffectiveDate == d by {
        var k :| 0 <= k < |rs| && rs[k].EffectiveDate == d;
        assert rs[1..][k - 1] == rs[k];
      }
      FirstDated(rs[1..], d) + 1
  }

  /**
   * The rate shown for district `uid`: none when it has no rates; otherwise one of its own rates
   * with the latest effective date, the first such in list order.
   */
  function LatestRate(rates: seq<SchoolDistrictRate>, uid: int): (r: Option<SchoolDistrictRate>)
    ensures r.Some? ==> r.value.SchoolDistrictUid == uid
  {
    var rs := RatesOf(rates, uid);
    if |rs| == 0 then None
    else
      var r := rs[FirstDated(rs, MaxEffectiveDate(rs))];
      assert r in rs;
      Some(r)
  }

  /**
   * No rate is found exactly when the district has none; the rate found is one of the district's
   * own, none of its rates is dated later, and every rate of the district listed before it is
   * dated earlier.
   */
  lemma LatestRateIsLatest(rates: seq<SchoolDistrictRate>, uid: int)
    ensures var r := LatestRate(rates, uid);
      && (r.None? <==> forall x :: x in rates ==> x.SchoolDistrictUid != uid)
      && (r.Some? ==> r.value in rates)
      && (r.Some? ==> forall x :: x in rates && x.SchoolDistrictUid == uid ==> x.EffectiveDate <= r.value.EffectiveDate)
      && (r.Some? ==> exists i :: (0 <= i < |RatesOf(rates, uid)| && RatesOf(rates, uid)[i] == r.value
           && forall j :: 0 <= j < i ==> RatesOf(rates, uid)[j].EffectiveDate < r.value.EffectiveDate))
  {
    var rs := RatesOf(rates, uid);
    if |rs| == 0 {
      forall x | x in rates ensures x.SchoolDistrictUid != uid {
        assert x !in rs;
      }
    } else {
      assert rs[0] in rates;
      var maxDate := MaxEffectiveDate(rs);
      var i := FirstDated(rs, maxDate);
      var r := rs[i];
      assert LatestRate(rates, uid) == Some(r);
      forall x | x in rates && x.SchoolDistrictUid == uid ensures x.EffectiveDate <= maxDate {
        assert x in rs;
      }
      assert forall j :: 0 <= j < i ==> rs[j].EffectiveDate < r.EffectiveDate;
      assert r in rs;
    }
  }

  /** The view model Index builds: one entry per district that has rates, in district order. */
  function LatestRates(districts: seq<SchoolDistrict>, rates: seq<SchoolDistrictRate>): (r: seq<SchoolDistrictRateView>)
    ensures |r| <= |districts|
    ensures forall k :: 0 <= k < |r| ==> r[k].SchoolDistrict in districts
  {
    if |districts| == 0 then []
    else
      var d := districts[|districts| - 1];
      LatestRates(districts[..|districts| - 1], rates)
        + match LatestRate(rates, d.SchoolDistrictUid)
          case None => []
          case Some(r) => [SchoolDistrictRateView(d, r)]
  }

  /** The districts that have at least one rate, in list order. */
  function DistrictsWithRates(districts: seq<SchoolDistrict>, rates: seq<SchoolDistrictRate>): seq<SchoolDistrict>
  {
    if |districts| == 0 then []
    else
      var d := districts[|districts| - 1];
      DistrictsWithRates(districts[..|districts| - 1], rates)
        + if LatestRate(rates, d.SchoolDistrictUid).Some? then [d] else []
  }

  function ViewDistricts(views: seq<SchoolDistrictRateView>): (ds: seq<SchoolDistrict>)
    ensures |ds| == |views| && forall k :: 0 <= k < |views| ==> ds[k] == views[k].SchoolDistrict
  {
    if |views| == 0 then [] else ViewDistricts(views[..|views| - 1]) + [views[|views| - 1].SchoolDistrict]
  }

  /** Index: for each district, skip it if it has no rates, else add it with its latest rate. */
  method Index(schoolDistricts: seq<SchoolDistrict>, schoolDistrictRates: seq<SchoolDistrictRate>)
    returns (viewModel: seq<SchoolDistrictRateView>)
    ensures viewModel == LatestRates(schoolDistricts, schoolDistrictRates)
  {
    viewModel := [];
    var n := 0;
    while n < |schoolDistricts|
      invariant n <= |schoolDistricts|
      invariant viewModel == LatestRates(schoolDistricts[..n], schoolDistrictRates)
    {
      var school := schoolDistricts[n];
      var rates := RatesOf(schoolDistrictRates, school.SchoolDistrictUid);
      assert schoolDistricts[..n + 1][..n] == schoolDistricts[..n];
      if |rates| == 0 {
        assert LatestRate(schoolDistrictRates, school.SchoolDistrictUid).None?;
      } else {
        var maxDate := MaxEffectiveDate(rates);
        var rate := rates[FirstDated(rates, maxDate)];
        viewModel := viewModel + [SchoolDistrictRateView(school, rate)];
      }
      n := n + 1;
    }
    assert schoolDistricts[..n] == schoolDistricts;
  }

  // ---------------------------------------------------------------- properties

  /**
   * Every entry pairs a district with that district's latest rate, and the entries' districts
   * are exactly the districts with rates, in district order: at most one entry per district.
   */
  lemma {:induction false} LatestRatesShape(districts: seq<SchoolDistrict>, rates: seq<SchoolDistrictRate>)
    ensures var v := LatestRates(districts, rates);
      ViewDistricts(v) == DistrictsWithRates(districts, rates)
      && |v| <= |districts|
      && forall k :: 0 <= k < |v| ==> Some(v[k].SchoolDistrictRate) == LatestRate(rates, v[k].SchoolDistrict.SchoolDistrictUid)
  {
    if |districts| > 0 {
      var pre, d := districts[..|districts| - 1], districts[|districts| - 1];
      LatestRatesShape(pre, rates);
      var v' := LatestRates(pre, rates);
      var v := LatestRates(districts, rates);
      var latest := LatestRate(rates, d.SchoolDistrictUid);
      if latest.Some? {
        var e := SchoolDistrictRateView(d, latest.value);
        assert v == v' + [e];
        assert DistrictsWithRates(districts, rates) == DistrictsWithRates(pre, rates) + [d];
        assert v[..|v| - 1] == v';
        assert ViewDistricts(v) == ViewDistricts(v') + [d];
        forall k | 0 <= k < |v|
          ensures Some(v[k].SchoolDistrictRate) == LatestRate(rates, v[k].SchoolDistrict.SchoolDistrictUid)
        {
          if k < |v'| {
            assert v[k] == v'[k];
          } else {
            assert v[k] == e;
          }
        }
      } else {
        assert v == v';
        assert DistrictsWithRates(districts, rates) == DistrictsWithRates(pre, rates);
      }
    }
  }

  /** A district is listed exactly when some rate belongs to it. */
  lemma {:induction false} ListedIffHasRate(districts: seq<SchoolDistrict>, rates: seq<SchoolDistrictRate>, d: SchoolDistrict)
    ensures d in DistrictsWithRates(districts, rates)
      <==> d in districts && exists x :: x in rates && x.SchoolDistrictUid == d.SchoolDistrictUid
  {
    if |districts| > 0 {
      ListedIffHasRate(districts[..|districts| - 1], rates, d);
      ListedStep(districts, rates, d);
    }
  }

  /** The last district is listed exactly when it has a rate; the others as before. */
  lemma ListedStep(districts: seq<SchoolDistrict>, rates: seq<SchoolDistrictRate>, d: SchoolDistrict)
    requires |districts| > 0
    ensures var pre, last := districts[..|districts| - 1], districts[|districts| - 1];
      && (d in districts <==> d in pre || d == last)
      && (d in DistrictsWithRates(districts, rates)
          <==> d in DistrictsWithRates(pre, rates) || (d == last && LatestRate(rates, last.SchoolDistrictUid).Some?))
  {
    var pre, last := districts[..|districts| - 1], districts[|districts| - 1];
    LatestRateIsLatest(rates, last.SchoolDistrictUid);
    assert districts == pre + [last];
    var tail := if LatestRate(rates, last.SchoolDistrictUid).Some? then [last] else [];
    assert DistrictsWithRates(districts, rates) == DistrictsWithRates(pre, rates) + tail;
  }
}
