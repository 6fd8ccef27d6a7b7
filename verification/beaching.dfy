/** `src/model/beaching_rules.py`: whether a particle is stranded, from
    the water depth under it and its distance to the coast. */
module Beaching {
  import opened Results

  const DepthKey: string := "depth_thresh_m"
  const BufferKey: string := "coastal_buffer_m"

  /** `should_beach`: stranded when the water is no deeper than the depth
      threshold or the coast is no farther than the buffer. Python's `or`
      reads the buffer only when the depth test fails, so a missing buffer
      is an error only for a particle in deep water. The point itself is
      not consulted. */
  function ShouldBeach<P>(point: P, depth: real, dist: real, cfg: map<string, real>): (r: Result<bool>)
    ensures r == Err(MissingKey(DepthKey)) <==> DepthKey !in cfg
    ensures r == Err(MissingKey(BufferKey)) <==> DepthKey in cfg && depth > cfg[DepthKey] && BufferKey !in cfg
    ensures r.Err? ==> r.error == MissingKey(DepthKey) || r.error == MissingKey(BufferKey)
    ensures DepthKey in cfg && depth <= cfg[DepthKey] ==> r == Ok(true)
    ensures DepthKey in cfg && BufferKey in cfg ==> r.Ok?
  {
    if DepthKey !in cfg then Err(MissingKey(DepthKey))
    else if depth <= cfg[DepthKey] then Ok(true)
    else if BufferKey !in cfg then Err(MissingKey(BufferKey))
    else Ok(dist <= cfg[BufferKey])
  }

  /** A configuration with both thresholds. */
  predicate Complete(cfg: map<string, real>) {
    DepthKey in cfg && BufferKey in cfg
  }

  /** With both thresholds set, a particle is stranded exactly when it is
      within either one, both bounds included. */
  lemma ShouldBeachExactly<P>(point: P, depth: real, dist: real, cfg: map<string, real>)
    requires Complete(cfg)
    ensures ShouldBeach(point, depth, dist, cfg) == Ok(true) <==>
      depth <= cfg[DepthKey] || dist <= cfg[BufferKey]
    ensures ShouldBeach(point, depth, dist, cfg) == Ok(false) <==>
      depth > cfg[DepthKey] && dist > cfg[BufferKey]
  {
  }

  /** A particle exactly at either threshold is stranded. */
  lemma ThresholdsInclusive<P>(point: P, cfg: map<string, real>, other: real)
    requires Complete(cfg)
    ensures ShouldBeach(point, cfg[DepthKey], other, cfg) == Ok(true)
    ensures ShouldBeach(point, other, cfg[BufferKey], cfg) == Ok(true)
  {
  }

  /** Shallower water or a nearer coast never frees a stranded particle:
      the rule is monotone in both measurements. */
  lemma ShouldBeachMonotone<P>(point: P, depth: real, dist: real, depth': real, dist': real, cfg: map<string, real>)
    requires Complete(cfg)
    requires depth' <= depth && dist' <= dist
    requires ShouldBeach(point, depth, dist, cfg) == Ok(true)
    ensures ShouldBeach(point, depth', dist', cfg) == Ok(true)
  {
  }

  /** The outcome does not depend on the point. */
  lemma ShouldBeachIgnoresPoint<P>(p: P, q: P, depth: real, dist: real, cfg: map<string, real>)
    ensures ShouldBeach(p, depth, dist, cfg) == ShouldBeach(q, depth, dist, cfg)
  {
  }
}
