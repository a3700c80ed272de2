/** The download-progress recorder of web_app.py: an object whose
    dictionary `progress` is updated in place by every progress event that
    yt-dlp reports. */
module Progress {
  import opened Common

  /** The keys a hook ever writes. */
  const HookKeys: set<string> :=
    {"status", "downloaded_bytes", "total_bytes", "speed", "eta", "percentage"}

  /** The keys a 'downloading' event always overwrites. */
  const CounterKeys: set<string> := {"downloaded_bytes", "total_bytes", "speed", "eta"}

  /** How a call of the hook ended: normally, or with a Python exception
      (a missing key, or arithmetic on a value that is not a number). */
  datatype PyError = KeyError(key: string) | TypeError
  datatype HookOutcome = Returned | Raised(error: PyError)

  /** The shape every progress dictionary keeps: only the hook's keys, a
      status once anything is recorded, and a numeric percentage recorded
      only next to a downloaded-byte count. */
  ghost predicate WellFormed(p: map<string, Value>)
  {
    && p.Keys <= HookKeys
    && (p != map[] ==> "status" in p && p["status"] in {Str("downloading"), Str("finished")})
    && ("percentage" in p ==> p["percentage"].Num? && "downloaded_bytes" in p)
  }

  /** The percentage `downloaded / total * 100` as the hook computes it, when
      both operands are numbers. */
  predicate IsPercentage(pct: Value, downloaded: Value, total: Value)
  {
    && AsNumber(downloaded).Some? && AsNumber(total).Some?
    && pct.Num?
    && pct.x * AsNumber(total).value == AsNumber(downloaded).value * 100.0
  }

  /** The key whose value divides the downloaded count: the total when it
      is truthy, else the estimated total when that is truthy, else none (""). */
  function DivisorKey(d: map<string, Value>): (k: string)
    ensures k != "" ==> k in d && Truthy(d[k]) && AsNumber(d[k]) != Some(0.0)
  {
    if Truthy(Lookup(d, "total_bytes")) then "total_bytes"
    else if Truthy(Lookup(d, "total_bytes_estimate")) then "total_bytes_estimate"
    else ""
  }

  /** The percentage key is present in both dictionaries with the same value,
      or in neither. */
  predicate SamePercentage(p: map<string, Value>, q: map<string, Value>)
  {
    && ("percentage" in p <==> "percentage" in q)
    && ("percentage" in p ==> p["percentage"] == q["percentage"])
  }

  /** The first five assignments of a 'downloading' event: the status, and
      each counter read from the event with 0 for a missing key. */
  function WithCounters(p: map<string, Value>, d: map<string, Value>): (q: map<string, Value>)
    ensures q.Keys == p.Keys + {"status"} + CounterKeys
    ensures q["status"] == Str("downloading")
    ensures forall k :: k in CounterKeys ==> q[k] == LookupOr(d, k, Num(0.0))
    ensures SamePercentage(q, p)
    ensures WellFormed(p) ==> WellFormed(q)
  {
    p["status" := Str("downloading")]
     ["downloaded_bytes" := LookupOr(d, "downloaded_bytes", Num(0.0))]
     ["total_bytes" := LookupOr(d, "total_bytes", Num(0.0))]
     ["speed" := LookupOr(d, "speed", Num(0.0))]
     ["eta" := LookupOr(d, "eta", Num(0.0))]
  }

  class ProgressHook {
    var progress: map<string, Value>

    ghost predicate Valid()
      reads this
    {
      WellFormed(progress)
    }

    /** A fresh hook has recorded nothing. */
    constructor ()
      ensures Valid() && progress == map[]
    {
      progress := map[];
    }

    /** One progress event `d` from yt-dlp. A 'downloading' event overwrites
        the status and the four counters (missing ones read as 0) and, when a
        non-zero total or else a non-zero estimated total is known, the
        percentage; a 'finished' event overwrites only the status; any other
        status changes nothing. */
    method Call(d: map<string, Value>) returns (outcome: HookOutcome)
      requires Valid()
      modifies this
      ensures Valid()
      ensures "status" !in d ==>
        outcome == Raised(KeyError("status")) && progress == old(progress)
      ensures "status" in d && d["status"] == Str("finished") ==>
        outcome == Returned && progress == old(progress)["status" := Str("finished")]
      ensures "status" in d && d["status"] != Str("downloading") && d["status"] != Str("finished") ==>
        outcome == Returned && progress == old(progress)
      ensures "status" in d && d["status"] == Str("downloading") ==>
        && "status" in progress && progress["status"] == Str("downloading")
        && (forall k :: k in CounterKeys ==> k in progress && progress[k] == LookupOr(d, k, Num(0.0)))
        && progress.Keys - {"percentage"} == old(progress).Keys + {"status"} + CounterKeys - {"percentage"}
      ensures "status" in d && d["status"] == Str("downloading") && DivisorKey(d) == "" ==>
        outcome == Returned && SamePercentage(progress, old(progress))
      ensures "status" in d && d["status"] == Str("downloading") && DivisorKey(d) != "" ==>
        if "downloaded_bytes" !in d then
          outcome == Raised(KeyError("downloaded_bytes")) && SamePercentage(progress, old(progress))
        else if AsNumber(d["downloaded_bytes"]).None? || AsNumber(d[DivisorKey(d)]).None? then
          outcome == Raised(TypeError) && SamePercentage(progress, old(progress))
        else
          && outcome == Returned
          && "percentage" in progress
          && IsPercentage(progress["percentage"], d["downloaded_bytes"], d[DivisorKey(d)])
    {
      if "status" !in d {
        return Raised(KeyError("status"));
      }
      if d["status"] == Str("downloading") {
        progress := WithCounters(progress, d);
        var divisorKey := "";
        if Truthy(Lookup(d, "total_bytes")) {
          divisorKey := "total_bytes";
        } else if Truthy(Lookup(d, "total_bytes_estimate")) {
          divisorKey := "total_bytes_estimate";
        }
        if divisorKey != "" {
          if "downloaded_bytes" !in d {
            return Raised(KeyError("downloaded_bytes"));
          }
          var downloaded := AsNumber(d["downloaded_bytes"]);
          var total := AsNumber(d[divisorKey]);
          if downloaded.None? || total.None? {
            return Raised(TypeError);
          }
          var pct := downloaded.value / total.value * 100.0;
          Percentage(downloaded.value, total.value);
          progress := progress["percentage" := Num(pct)];
        }
        outcome := Returned;
      } else if d["status"] == Str("finished") {
        progress := progress["status" := Str("finished")];
        outcome := Returned;
      } else {
        outcome := Returned;
      }
    }
  }

  /** `downloaded / total * 100` times `total` gives back `downloaded * 100`. */
  lemma Percentage(downloaded: real, total: real)
    requires total != 0.0
    ensures downloaded / total * 100.0 * total == downloaded * 100.0
  {
    assert downloaded / total * total == downloaded;
  }
}
