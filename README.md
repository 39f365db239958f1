# Earthquake marker encoding and legend

A model of the logic in the earthquake map page `static/js/logic.js`. The page
draws one circle marker for each earthquake in a GeoJSON feed. The marker's
radius comes from the magnitude and its fill colour from the depth. A legend
lists the colour of each depth range.

- `markers.dfy` (module `Markers`) has `setMarkerSize`, `selectColor` and the
  options record that `quakeMarkers` builds. `selectColor` is proved equal to
  a reference definition of the depth bucket: the number of thresholds at or
  below the depth (`Rank`).
- `legend.dfy` (module `Legend`) has the entry-building loop of
  `legend.onAdd`. It is a method that appends one (swatch, label) entry per
  element of `depths = [5, 20, 40, 50, 60, 70]`. The `depths[i + 1]` test is
  modelled as the script runs it: reading past the end gives `undefined`,
  and `undefined` and `0` are falsy.

Depth and magnitude are mathematical reals. Colours are the literal hex
strings the source returns; `Palette[k]` is the colour of bucket `k`.

The feature record reads `geometry.coordinates[2]`. When a feature has fewer
than three coordinates, that read gives `undefined`. Every `<` test against
`undefined` is false, so `selectColor` returns its last colour, `#1cba9e`.
The model handles that case explicitly. It does not forbid it.

## Model

| member | source | states |
|---|---|---|
| `Markers.SetMarkerSize` | static/js/logic.js:5-7 | the radius is five times the magnitude; there is no clamping: the radius is negative exactly when the magnitude is, and zero exactly when it is |
| `Markers.SelectColor` | static/js/logic.js:10-18 | every depth gets one of the seven palette colours |
| `Markers.PaletteDistinct` | static/js/logic.js:11-17 | the seven colour strings are pairwise different, so a colour picks out exactly one bucket |
| `Markers.SelectColorByRank` | static/js/logic.js:10-18 | the first-match chain of strict `<` tests returns `Palette[k]`, where `k` is the number of thresholds at or below the depth, and the depth lies in bucket `k` |
| `Markers.SelectColorIsBucket` | static/js/logic.js:11-17 | for each bucket `k`, the colour is `Palette[k]` if and only if `Thresholds[k-1] <= depth < Thresholds[k]` (with no lower bound for bucket 0 and no upper bound for bucket 6) |
| `Markers.ThresholdGoesUp` | static/js/logic.js:11-17 | a depth exactly on threshold `k` gets the colour of the next, higher bucket `k+1`; every depth between threshold `k-1` and threshold `k` gets colour `k` |
| `Markers.SelectColorMonotone` | static/js/logic.js:11-17 | if `d1 <= d2`, the bucket index of `d1`'s colour is at most that of `d2`'s |
| `Markers.BoundaryExamples` | static/js/logic.js:11-17 | concrete boundaries: 4.999 is `#9d34eb` and 5 is `#34ebc6`, and likewise at 20, 40, 50, 60 and 70 (70 gives `#1cba9e`) |
| `Markers.DepthColour` | static/js/logic.js:105 | with a third coordinate, the fill colour is the colour of that depth's bucket; without one, it is the last colour `#1cba9e` |
| `Markers.QuakeMarkerOptions` | static/js/logic.js:102-110 | the radius is five times the magnitude; the fill colour is `selectColor(coordinates[2])`, or the last colour when there is no third coordinate; fill opacity is 0.7, stroke colour is black, stroke is on and weight is 0.7 |
| `Markers.StyleDependsOnMagnitudeAndDepth` | static/js/logic.js:103-110 | two features with the same magnitude and depth get the same style record; place, time and position play no part |
| `Markers.ExampleFeature` | static/js/logic.js:102-110 | magnitude 4.2 at depth 12.3 km gives radius 21 and fill `#34ebc6` |
| `Legend.At` | static/js/logic.js:95 | indexing `depths` gives a value exactly at valid indices, and `undefined` elsewhere |
| `Legend.Truthy` | static/js/logic.js:95 | the range test reads `depths[i + 1]` as a truth value: `undefined` and 0 are falsy, every other number is truthy |
| `Legend.TruthyIsInRange` | static/js/logic.js:95 | when no depth is 0, the truthiness test on `depths[j]` holds exactly when `j` is a valid index |
| `Legend.OnAdd` | static/js/logic.js:87-98 | the loop yields one entry per depth, in order; entry `i` has swatch `selectColor(depths[i] + 1)` and label `depths[i]–depths[i+1]`, except the last entry, whose label is `depths[i]+` |
| `Legend.SwatchOfThreshold` | static/js/logic.js:89-94 | for each legend threshold `T`, `selectColor(T + 1) == selectColor(T)`, and both are the colour of the bucket that starts at `T` |
| `Legend.LegendEntries` | static/js/logic.js:89-95 | the legend has six entries; their swatches are the colours of buckets 1 to 6 in order; their labels are 5–20, 20–40, 40–50, 50–60, 60–70 and 70+ |
| `Legend.LegendSwatchesDistinct` | static/js/logic.js:89-94 | the six swatches are pairwise different, and the below-5 km colour `#9d34eb` never appears in the legend |
| `Legend.Show` | static/js/logic.js:95 | a non-negative integer becomes a non-empty string of decimal digits, without a leading zero, when it is joined into the label |
| `Legend.ReadShow` | static/js/logic.js:95 | reading that decimal text back gives the number it was made from |
| `Legend.LabelText` | static/js/logic.js:95 | a closed range reads `lo–hi` and the last range reads `lo+`, both numbers in decimal |
| `Legend.ShowInjective` | static/js/logic.js:95 | different numbers get different decimal texts |
| `Legend.LabelTextInjective` | static/js/logic.js:95 | different captions get different texts, so a label text determines its range |
| `Legend.LegendLabelTexts` | static/js/logic.js:95 | the label texts are exactly "5–20", "20–40", "40–50", "50–60", "60–70" and "70+" |

## Left out

- The two `d3.json` fetches of the feed (static/js/logic.js:21-29), including the one that only logs the payload. They are network I/O and promise continuations.
- The Leaflet calls: `L.geoJSON`, tile layers, the map, the layer control, the legend control, `L.DomUtil.create` and `L.circleMarker` (static/js/logic.js:41-44, 50-85, 88, 99, 111). They are library calls whose source is not part of this model. The swap from GeoJSON (lon, lat) to the marker's (lat, lon) happens inside `L.geoJSON`, so it is not modelled either.
- The popup text (static/js/logic.js:36). It renders `new Date(time)`, which depends on the viewer's locale and time zone.
- The legend's HTML: the "Depths" heading, the `<i style=...>` swatch markup, the `<br>` after each closed range, and the `&ndash;` entity, which the label text shows as '–'. Entries are modelled as (colour, label) pairs.
- IEEE-754 number behaviour. Depth and magnitude are mathematical reals. The code only compares them with `<` and multiplies by 5.
- `Markers.QuakeMarkerOptions`: a feature without `properties` or without `geometry` cannot be written in the model, because `Feature` always has both. In the script, such a feature makes `feature.properties.mag` or `feature.geometry.coordinates` throw a TypeError that nothing catches (static/js/logic.js:104-105).
- `Markers.QuakeMarkerOptions`: a missing or `null` magnitude is not modelled. The script would coerce `null` to 0 and `undefined` to NaN; here the magnitude is always a number.
- `Legend.Show`: covers only the non-negative integers that `depths` holds, not JavaScript's general number-to-string conversion.
