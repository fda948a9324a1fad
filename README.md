# Point-in-polygon test and rejection sampler

This project models the geometric core of the average-chain-distance analysis
script (`script.py`). That core has two parts:

- `point_inside_polygon` is a ray-casting (crossing-number) test. It walks the
  polygon's vertex ring once. On every step it decides whether the horizontal
  ray from the query point, towards growing x, crosses the step's edge. If so,
  it flips a boolean `inside`.
- `generate_sample_points` is a rejection sampler. It takes the axis-aligned
  bounding box of the vertices and draws candidate points uniformly from it.
  It keeps the candidates the test accepts and stops once it has kept more
  than `n`.

Coordinates are exact `real`s. A point is `Point(x, y)`, and the sampler calls
`x` the latitude and `y` the longitude, as the script does.

The module `Polygon` (`polygon.dfy`) holds the test. The method
`PointInsidePolygon` keeps the script's loop and its mutable locals. It is
proved to return the parity of the number of steps that toggle (`Contains`).
Lemmas relate those steps to the ring's edges. Further lemmas show that points
beyond the vertices, on any side, are outside.

The module `Sampler` (`sampler.dfy`) holds the bounding box and the sampling
loop. The random generator is a parameter. `rand` is the sequence of unit
draws in [0, 1] that the generator hands out, in call order, and
`Uniform(lo, hi, u)` turns one draw into a value in `[lo, hi]`. The loop
consumes two draws per candidate: the latitude first, then the longitude.
When the draws suffice (`finished`), `GenerateSamplePoints` is proved to
return the first `Quota(n)` accepted candidates: `n + 1` of them for `n >= 0`,
and one for negative `n`. When the draws run out first, it returns every
accepted candidate. Either way, every point it returns passes the test and lies
in the bounding box.

## Model

| member | source | states |
|---|---|---|
| Polygon.PointInsidePolygon | script.py:34-58 | The loop's answer is the parity of the number of the n + 1 steps whose toggle condition holds, starting from `false`. The intercept it reads is always the one computed on the same step. It requires a non-empty polygon, as `poly[0]` and `i % n` do. |
| Polygon.Vertex | script.py:48 | The vertex a step reaches, `poly[i % n]`, is a vertex of the polygon. |
| Polygon.Prior | script.py:46-56 | The point `p1` holds when a step starts is `poly[0]` for the first step, and the previous step's vertex after that. It is a vertex of the polygon. |
| Polygon.Intercept | script.py:53 | `xints` is where the line through the step's two ends reaches height y. The point (xints, y) is collinear with both ends, and at an end's height it equals that end's x. |
| Polygon.Toggles | script.py:49-54 | A step toggles only when its two ends have different y. A horizontal edge therefore never toggles, and the divisor of the intercept is never zero. |
| Polygon.StepsAreRingEdges | script.py:46-56 | The steps are a degenerate step from `poly[0]` to itself, then each ring edge `poly[i] -> poly[(i+1) mod n]` in order, the closing edge last. The result is the parity of the ring edges the ray crosses. |
| Polygon.NotContainedBelow | script.py:49 | A point at or below every vertex's y is outside. |
| Polygon.NotContainedAbove | script.py:50 | A point strictly above every vertex's y is outside. |
| Polygon.NotContainedRight | script.py:51 | A point strictly right of every vertex's x is outside. |
| Polygon.InterceptOnEdge | script.py:53 | Where an edge spanning the ray's height meets that height lies between the x of the edge's two ends. |
| Polygon.LeftToggleIsSideChange | script.py:49-55 | Left of both ends, a step toggles exactly when its ends lie on opposite sides of the ray's height. |
| Polygon.LeftParity | script.py:47-56 | Left of every vertex, the parity after k steps says whether `poly[0]` and the current `p1` lie on opposite sides of the ray's height. |
| Polygon.NotContainedLeft | script.py:47-58 | A point strictly left of every vertex's x is outside, because a closed ring crosses any height an even number of times. |
| Polygon.SquareExample | script.py:34-58 | For the square (0,0),(0,10),(10,10),(10,0), the point (5,5) is inside and (15,15) is not. |
| Sampler.SeqMin | script.py:69-71 | `min` of a non-empty list is one of its elements and at most every element. |
| Sampler.SeqMax | script.py:68-70 | `max` of a non-empty list is one of its elements and at least every element. |
| Sampler.BoundingBox | script.py:67-71 | Every vertex lies in the box `[min_lat, max_lat] x [min_long, max_long]`, and each side of the box touches a vertex. |
| Sampler.Uniform | script.py:74-75 | A drawn coordinate lies between the two bounds passed to `random.uniform`. |
| Sampler.Candidates | script.py:73-75 | Every candidate drawn lies in the vertices' bounding box. |
| Sampler.AcceptedSound | script.py:76-77 | Every kept point is a candidate, and the test accepts it with the same vertex list. |
| Sampler.AcceptedComplete | script.py:76-77 | Every candidate the test accepts is kept. (That a rejected candidate adds nothing, script.py:80-81, is the definition of `Accepted` itself.) |
| Sampler.KeptFromDrawsValid | script.py:74-77 | Every point kept from the draws passes the test with the same vertex list and lies in the vertices' bounding box. |
| Sampler.AcceptedPrefix | script.py:73-79 | What is kept from the first candidates is a prefix of what is kept from all of them, in acceptance order. |
| Sampler.Quota | script.py:78-79 | The loop stops at the least positive count above `n`: `n + 1` for `n >= 0`, and 1 otherwise. |
| Sampler.GenerateSamplePoints | script.py:61-82 | Every returned point passes the test and lies in the bounding box. When it finishes, it returns exactly the first `Quota(n)` accepted candidates, which is more than `n`. Otherwise the draws ran out, and it returns every accepted candidate. |
| Sampler.ContainedPointsLieInBox | script.py:67-77 | Every point the test accepts lies in the bounding box, strictly above its lower longitude side, so drawing from the box misses no accepted point. |
| Sampler.FlatPolygonAcceptsNothing | script.py:72-82 | If all vertices share one longitude, no candidate is ever accepted, so the uncapped loop never finishes. |

These definitions have no contract of their own. The rows above state their
properties:

- `Polygon.Crossings` and `Polygon.Contains` (script.py:44-58) are the number of
  the first k steps that toggle, and its parity after all n + 1 steps.
- `Polygon.EdgeCrossings` is the same count taken over the ring's edges. It is
  the reference that `StepsAreRingEdges` compares against.
- `Sampler.Lats` and `Sampler.Longs` (script.py:67) are the first and second
  components of the vertices.
- `Sampler.Candidate` (script.py:74-75) is the candidate drawn from one pair of
  draws.
- `Sampler.Accepted` (script.py:76-81) is the candidates the test accepts, in
  drawing order. A rejected candidate adds nothing.

## Left out

- `load_geojson` and `load_coordinates` (script.py:6-30) are file reading plus the external `geojson` library. They are not part of this model. `load_coordinates` ignores its `name` argument and keeps the file's coordinate order. GeoJSON positions are (longitude, latitude), and `load_coordinates` (script.py:29-30) passes them on unchanged. The model takes the vertex list as given and reorders nothing.
- `sample_points` (script.py:85-91) only combines file loading with the sampler.
- The `__main__` block (script.py:94-109) is plotting and HTML output.
- The internals of `random.uniform` are not modelled. Each draw is an input in [0, 1], and `Uniform` maps it linearly onto the requested interval. No pseudo-random generator, distribution or seed is modelled.
- Sampler.GenerateSamplePoints: the source's `while True` loop has no cap and may run forever. The model's loop also stops when the supplied draws run out, and it reports that with `finished == false`. The model therefore says nothing about how long the source runs. `FlatPolygonAcceptsNothing` shows that the source can fail to terminate.
- The default arguments (`n=1000`, the default file name) are not modelled. `n` is always passed.
- IEEE floating-point rounding is not modelled. With exact reals, the intercept division is exact, and behaviour on an edge or vertex under rounding is not captured.
- Self-intersecting and multi-part boundaries get no special treatment, as in the code. The test is modelled as written for every non-empty vertex list.
- Polygon.PointInsidePolygon: requires a non-empty polygon. On an empty list the source raises IndexError at `poly[0]` (script.py:46), and that crash path is not modelled.
- Sampler.BoundingBox: requires a non-empty vertex list. On an empty list the source's `max` raises ValueError (script.py:68), and that crash path is not modelled.
- Sampler.GenerateSamplePoints: requires a non-empty `coordinate_list`, for the same ValueError at script.py:68, which is not modelled.
- Nearest-store distance, geodesic distance and store-location scraping are not part of this model.
