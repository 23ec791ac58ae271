/** The packing of administrative distance and metric into the kernel priority. */
module RibPriority {
  import opened Bits
  import opened RibSpec

  /** One callback on the priority; 0 unsets. */
  datatype Setting = DistanceTo(value: uint32) | MetricTo(value: uint32)

  ghost predicate InRange(settings: seq<Setting>) {
    forall i :: 0 <= i < |settings| ==> settings[i].value < HALF
  }

  function Put(priority: uint32, setting: Setting): uint32
    requires setting.value < HALF
  {
    match setting
    case DistanceTo(x) => SetDistance(priority, x)
    case MetricTo(x) => SetMetric(priority, x)
  }

  function Apply(priority: uint32, settings: seq<Setting>): uint32
    requires InRange(settings)
    decreases |settings|
  {
    if settings == [] then priority else Apply(Put(priority, settings[0]), settings[1..])
  }

  /** The last distance and the last metric of a sequence of settings, or the given ones. */
  function Last(distance: uint32, metric: uint32, settings: seq<Setting>): (uint32, uint32)
    decreases |settings|
  {
    if settings == [] then (distance, metric)
    else
      match settings[0]
      case DistanceTo(x) => Last(x, metric, settings[1..])
      case MetricTo(x) => Last(distance, x, settings[1..])
  }

  /** Under any sequence of sets and unsets below 65536 the priority is 65536 * distance + metric. */
  lemma {:induction false} PriorityIsPacked(distance: uint32, metric: uint32, settings: seq<Setting>)
    requires distance < HALF && metric < HALF && InRange(settings)
    ensures var (d, m) := Last(distance, metric, settings);
            d < HALF && m < HALF && Apply(HALF * distance + metric, settings) == HALF * d + m
    decreases |settings|
  {
    if settings != [] {
      PutPacked(distance, metric, settings[0]);
      match settings[0]
      case DistanceTo(x) => PriorityIsPacked(x, metric, settings[1..]);
      case MetricTo(x) => PriorityIsPacked(distance, x, settings[1..]);
    }
  }

  lemma PutPacked(distance: uint32, metric: uint32, setting: Setting)
    requires distance < HALF && metric < HALF && setting.value < HALF
    ensures Put(HALF * distance + metric, setting) ==
              match setting
              case DistanceTo(x) => HALF * x + metric
              case MetricTo(x) => HALF * distance + x
  {
    HalvesOf(distance, metric);
  }

  lemma Lexicographic(d: nat, m: nat, e: nat, n: nat)
    requires m < HALF && n < HALF
    ensures HALF * d + m < HALF * e + n <==> d < e || (d == e && m < n)
  {
  }

  /** The kernel's numeric preference is the lexicographic one on (distance, metric). */
  lemma PriorityOrder(a: seq<Setting>, b: seq<Setting>)
    requires InRange(a) && InRange(b)
    ensures var (d, m) := Last(0, 0, a);
            var (e, n) := Last(0, 0, b);
            Apply(0, a) < Apply(0, b) <==> d < e || (d == e && m < n)
  {
    PriorityIsPacked(0, 0, a);
    PriorityIsPacked(0, 0, b);
    var (d, m) := Last(0, 0, a);
    var (e, n) := Last(0, 0, b);
    Lexicographic(d, m, e, n);
  }

  /** Setting distance and metric commutes for every priority exactly when the metric is not 65536
      or the distance is odd. */
  lemma SettersCommuteIff(distance: uint32, metric: uint32)
    requires distance <= HALF && metric <= HALF
    ensures (forall p: uint32 ::
               SetMetric(SetDistance(p, distance), metric) == SetDistance(SetMetric(p, metric), distance))
       <==> metric < HALF || distance % 2 == 1
  {
    forall p: uint32
      ensures metric < HALF || distance % 2 == 1 ==>
        SetMetric(SetDistance(p, distance), metric) == SetDistance(SetMetric(p, metric), distance)
    {
      Both(p, distance, metric);
    }
    if metric == HALF && distance % 2 == 0 {
      Both(0, distance, metric);
    }
  }

  /** Both orders, computed: at the accepted bound a distance of 65536 packs to 0, and a metric of
      65536 packs to 0 and sets the low bit of the distance unless the distance is set afterwards. */
  lemma Both(p: uint32, distance: uint32, metric: uint32)
    requires distance <= HALF && metric <= HALF
    ensures SetDistance(SetMetric(p, metric), distance) == distance % HALF * HALF + metric % HALF
    ensures SetMetric(SetDistance(p, distance), metric) ==
              (if metric == HALF && distance % 2 == 0 then (distance % HALF + 1) * HALF
               else distance % HALF * HALF + metric % HALF)
  {
    var d := distance % HALF;
    HalvesOf(d, p % HALF);
    HalvesOf(p / HALF, metric % HALF);
    HalvesOf(p / HALF + 1, 0);
    assert d % 2 == distance % 2;
  }

  lemma HalvesOf(high: nat, low: nat)
    requires low < HALF
    ensures (high * HALF + low) / HALF == high
    ensures (high * HALF + low) % HALF == low
  {
  }
}
