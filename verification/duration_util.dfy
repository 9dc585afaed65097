/** Travel time along one road segment at the courier's speed
    (domain/utils/DurationUtil.java). */
module Durations {
  import opened Domain

  /** The courier's speed, in kilometres per hour. */
  const CourierSpeedKmh: real := 15.0

  /** The minutes needed to drive along `seg`: no segment, or a segment of
      no positive length, takes no time; otherwise 15 km/h covers 250 metres
      a minute. */
  function ComputeDuration(seg: Option<RoadSegment>): (minutes: real)
    ensures seg.None? || seg.value.length <= 0.0 ==> minutes == 0.0
    ensures seg.Some? && seg.value.length > 0.0 ==> minutes * 250.0 == seg.value.length
    ensures minutes >= 0.0
  {
    if seg.None? || seg.value.length <= 0.0 then 0.0
    else (seg.value.length / (1000.0 * CourierSpeedKmh)) * 60.0
  }

  /** A longer segment never takes less time. */
  lemma DurationMonotone(a: RoadSegment, b: RoadSegment)
    requires a.length <= b.length
    ensures ComputeDuration(Some(a)) <= ComputeDuration(Some(b))
  {
  }

  /** 15 km take an hour, 7.5 km half an hour and 900 km sixty hours. */
  lemma DurationExamples(name: string, s: int, e: int)
    ensures ComputeDuration(Some(RoadSegment(name, 15000.0, s, e))) == 60.0
    ensures ComputeDuration(Some(RoadSegment(name, 7500.0, s, e))) == 30.0
    ensures ComputeDuration(Some(RoadSegment(name, 900000.0, s, e))) == 3600.0
    ensures ComputeDuration(Some(RoadSegment(name, -5.0, s, e))) == 0.0
  {
  }
}
