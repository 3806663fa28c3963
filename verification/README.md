# BEPMAT grid algebra in Dafny

BEPMAT estimates the bioenergy potential of a region from gridded crop data.
This project models the arithmetic core of its `Functions.py`. Raster reading
and clipping to the region are taken as given, so every raster arrives as a
two-dimensional grid. A grid is a `seq<seq<Cell>>` with
`Cell = NoData | Val(real)`, where `NoData` stands for NaN only. A raster's
nodata sentinel is an ordinary number to NumPy, so it is a `Val`. A grid after
`nan_to_num` is a `Field`, a `seq<seq<real>>`.

The modules follow the pipeline:

- `Grids` defines the grids and their element-wise operations: zeros, scaling,
  addition and multiplication. It also defines `nansum` and its linearity.
- `Residues` holds the two residue coefficient tables as literal data, and the
  fold that gives a crop's conversion factor, the sum of RPR * SAF * LHV over
  the crop's rows.
- `Historical` models `biomass_potential_past`. For each crop, the recorded
  production is turned into a `sum_production` scalar and a per-pixel field,
  both scaled by 10^12. Both are accumulated into `net_sum` and `combined`.
- `Future` models `future_residues_all_final`. Missing pixels of the harvested
  area and of the potential yield are read as 0 and the two grids are
  multiplied. The total of the product times the factor times 10^9 gives the
  crop's `temp_sum`. The crop's field is scaled by that `temp_sum`, as the code
  does.
- `Exclusion` models `coordinates_and_values`, `coordinates_and_threshold`,
  the fixed exclusion codes of the marginal-land calculation, and
  `remove_pixels`.
- `Allocator` models `find_max_for_each_pixel_crop_and_values_corrected`.
  It computes each crop's candidate field, runs a strict running maximum in
  catalog order, and relabels the pixels that Alfalfa wins with the string
  "None".
- `Marginal` models `get_net_harvested_area`, `extract_pixel_area` and
  `get_biomass_potential_for_marginal`, from the clipped bands to the total.
- `Georef` models the transform arithmetic of `resolution_converter_mode` and
  `array_to_inmemory_raster_for_clipped`.
- `Outcomes` holds the `Result` type and the failures the code raises:
  IndexError, TypeError and a division by zero.

Each loop over crops is modelled in two steps: the crop's entry is computed
first, and the entries are then folded in catalog order. The code instead
computes and adds in the same iteration. Both give the same state, because no
entry depends on the running totals. Each fold is compared with an independent
reference definition, such as a per-pixel sum, a closed formula or the first
maximum of a sequence.

Where a comment in the source and the code disagree, the model follows the
code:

- No value is clamped to be non-negative, although a comment asks for the
  negatives to be removed (Functions.py:1740).
- The marginal result uses the full pixel area (`net_area`, Functions.py:1416).
  The comments at Functions.py:1291-1295 and 1324-1329 describe multiplying
  the remaining area, and `remaining_area` is computed at Functions.py:1415
  but never used.
- A pixel that Alfalfa wins is not left as NaN, as the comment at
  Functions.py:1266 suggests. `max_crops` is a string array, so assigning None
  there stores the string "None". The pixel is not handed to the next-best
  crop, and it keeps Alfalfa's value.

Two further behaviours of the code are kept as written:

- A NaN in one harvested-area raster makes that pixel NaN in the sum
  (Functions.py:1319-1322), instead of counting as 0.
- Each crop's future field is scaled by the crop's regional `temp_sum`
  (Functions.py:548), not by its conversion factor.

## Model

| member | source | states |
|---|---|---|
| Residues.RowsFor | Functions.py:315 | Filtering a table on a crop name keeps exactly the rows of that crop and no others. |
| Residues.ResidueSumIsFactor | Functions.py:318-325 | Adding `total * RPR * SAF * LHV * unit` row by row adds `total` times the crop's whole factor times the unit. |
| Residues.FactorSplit | Functions.py:315-327 | The factor is a sum over every row of the crop wherever it sits, so splitting the table splits the factor. |
| Residues.MissingCropFactor | Functions.py:315-327 | A crop with no row in the table finds no rows and has factor 0. |
| Residues.FactorWithin | Functions.py:315-327 | Rows of other crops before and after a crop's own rows do not change its factor. |
| Residues.MaizeFactor | Functions.py:212-257 | In the cropland table, Maize's factor is 0.273·1·16.63 + 0.2·1·15.56 + 2·0.8·16.3. |
| Residues.AlfalfaFactor | Functions.py:775-898 | In the potential-yield table, Alfalfa's only row has SAF 0 and LHV 0, so its factor is 0. |
| Historical.PastCropSum | Functions.py:312-325 | A crop's `sum_production` is nansum(clipped) × factor × 10^12. |
| Historical.PastCropField | Functions.py:319-327 | A crop's field is its clipped raster scaled by factor × 10^12, and NaN where the raster is NaN. A crop with no residue rows keeps the zeros it started from. |
| Historical.ResidueCellIsFactor | Functions.py:321-327 | At one pixel, adding the rows one by one adds the cell times the whole factor. A NaN operand makes the result NaN. |
| Historical.PastEntries | Functions.py:306-351 | The dataset holds one entry per crop, in catalog order, and each entry is that crop's own result. |
| Historical.PastCropEntries | Functions.py:306-351 | Each entry names its crop, carries nansum × factor × 10^12, and has the reference raster's shape. |
| Historical.PastNetSum | Functions.py:296-357 | `net_sum` is the sum over the crops of nansum(clipped) × factor × 10^12. |
| Historical.NetSumIsSumOfCrops | Functions.py:330-357 | `net_sum` equals the sum of the per-crop `sum_production` attributes. |
| Historical.PastCombined | Functions.py:299-360 | `combined` is the pixel-wise sum of the crop fields, starting from zeros, and NaN wherever one of them is NaN. |
| Historical.CropFieldTotal | Functions.py:312-345 | If a crop's raster has no NaN, its field has no NaN and sums to the crop's own `sum_production`. |
| Historical.PastTotalsAgree | Functions.py:357-363 | If no crop raster has a NaN, the `sum_production` of `combined` equals `net_sum`. |
| Future.AreaTimesYield | Functions.py:526-529 | The product is area × yield at every pixel, with NaN in either input read as 0. |
| Future.FutureCropSum | Functions.py:529-543 | `temp_sum` is sum(area × yield) × factor × 10^9. |
| Future.FutureCropField | Functions.py:548 | Each pixel of a crop's field is area × yield there times the crop's `temp_sum`. |
| Future.MissingPixelIsZero | Functions.py:526-548 | A pixel missing in either input contributes 0 to the crop's field. |
| Future.FieldTotalIsSquared | Functions.py:548-553 | A crop's field totals sum(area × yield) × `temp_sum`, not `temp_sum`. |
| Future.FieldTotalDiffers | Functions.py:548-553 | If the regional area × yield is neither 0 nor 1 and the factor is not 0, a field does not sum to its own `sum_production`. |
| Future.FutureEntries | Functions.py:515-559 | The dataset holds one entry per crop, in catalog order. |
| Future.FutureNetSum | Functions.py:513-565 | `net_sum` is the sum over the crops of sum(area × yield) × factor × 10^9. |
| Future.FutureCombined | Functions.py:502-568 | `combined` is the pixel-wise sum of the crop fields, starting from zeros. |
| Exclusion.ScanExact | Functions.py:1032-1053 | A scan reports a pixel exactly when it passes the test, with its coordinates, row, column and value. |
| Exclusion.ScanOrdered | Functions.py:1032 | A scan lists its pixels in strict row-major order, so no pixel twice. |
| Exclusion.CoordinatesAndValuesExact | Functions.py:1031-1038 | `coordinates_and_values` returns exactly the pixels that hold one of the listed codes, each with that code as `pixel`. |
| Exclusion.CoordinatesAndValuesAppend | Functions.py:1031-1038 | Scanning a joined code list gives the scans of its parts one after the other, so the hits are grouped by code in list order. |
| Exclusion.CoordinatesAndThresholdExact | Functions.py:1048-1053 | `coordinates_and_threshold` returns exactly the pixels strictly above the threshold, each with its value. |
| Exclusion.ExcludedPixelsExact | Functions.py:1392-1398 | A (row, col) is on the removal list exactly when an AEZ code in {49,50,52,53,55,56,57}, an exclusion class in 2..7, tree cover above 50, or pasture class 1 selects it. |
| Exclusion.RemovePixels | Functions.py:1183-1199 | `remove_pixels` raises IndexError on a coordinate outside the band. Otherwise the result has the band's shape, NaN at the listed pixels and the input elsewhere. |
| Exclusion.RemovePixelsSetOnly | Functions.py:1186-1197 | Repeated or reordered coordinate lists with the same members give the same result. |
| Exclusion.RemovePixelsIdempotent | Functions.py:1186-1197 | Removing the same pixels a second time changes nothing. |
| Allocator.CandidateAtPixel | Functions.py:1237-1248 | A crop's candidate at a pixel is its masked value there, with NaN read as 0, times the crop's factor. |
| Allocator.PixelValuesAreScaled | Functions.py:1237-1248 | Every candidate compared at a pixel is the masked value, with NaN read as 0, times that crop's factor. |
| Allocator.RunningMaxIsFirstMax | Functions.py:1255-1264 | A running maximum that moves only on a strict increase ends on the first index that reaches the maximum. |
| Allocator.MaxLoopAtPixel | Functions.py:1254-1264 | After the crop loop, a pixel holds the running maximum of the crops' candidates there, labelled with the crop it came from. |
| Allocator.FindMax | Functions.py:1229-1267 | With no crop the relabelling fails. Otherwise the outputs have the rasters' shape and no pixel is labelled Alfalfa. |
| Allocator.FindMaxIsFirstMax | Functions.py:1254-1267 | `max_values[p]` is the largest candidate at p. The label names the first crop in catalog order that reaches it, and a pixel won by Alfalfa is labelled "None". |
| Marginal.NetHarvestedArea | Functions.py:1297-1324 | The harvested area fails with a TypeError when the catalog lists no raster, and otherwise has the rasters' shape. |
| Marginal.NetHarvestedAreaAtPixel | Functions.py:1319-1324 | Each pixel is 1000 × the sum of the masked rasters there. |
| Marginal.PixelTotalMissing | Functions.py:1319-1322 | A pixel of the sum is NaN exactly when it is NaN in some raster. |
| Marginal.PixelArea | Functions.py:1352-1360 | The area has the reference raster's shape and is 0 at a pixel holding the nodata value. |
| Marginal.AreaDependsOnRow | Functions.py:1358-1360 | With a north-up transform, two pixels of one row that both have data have the same area. |
| Marginal.AreaNonNegative | Functions.py:1360 | Where the cosine of the centre latitude is not negative, a pixel's area is not negative. |
| Marginal.FinalPotentialSpec | Functions.py:1416 | Each pixel's potential is its best candidate × its full pixel area × 10^7, and the potentials total 10^7 × the sum of the products. |
| Marginal.MaskCrops | Functions.py:1229-1234 | Every crop raster is masked with the same list. On failure, the error is that of the first crop whose raster a coordinate falls outside, and every earlier crop masked cleanly. |
| Marginal.BiomassPotentialForMarginal | Functions.py:1392-1420 | The returned total is the sum of the returned per-pixel potential, which has the reference raster's shape. |
| Marginal.MarginalFailure | Functions.py:1392-1406 | The calculation fails exactly when a removal coordinate lies outside a crop or harvested-area raster, or when either catalog list is empty. |
| Marginal.MarginalPixelPotential | Functions.py:1402-1416 | In a successful run, each pixel's potential is its best value × its own pixel area × 10^7. |
| Marginal.MarginalPixelBest | Functions.py:1402-1404 | In a successful run, each pixel's best value is the largest candidate of the masked crop rasters there. Its label is the first crop in catalog order that reaches it, or "None" when that crop is Alfalfa. |
| Marginal.HarvestedAreaUnused | Functions.py:1406-1416 | Two successful runs that differ only in their harvested-area rasters return the same result. |
| Marginal.AllMissingBestIsZero | Functions.py:1239-1264 | Where every crop raster is NaN, every candidate is 0 and so is the best value. |
| Marginal.ExcludedPixelYieldsNothing | Functions.py:1392-1416 | When the pipeline succeeds, a pixel on the removal list has best value 0 and potential 0. |
| Marginal.NoAreaYieldsNothing | Functions.py:1357-1416 | When the pipeline succeeds, a reference pixel holding the nodata value has potential 0. |
| Georef.ResolutionConverterMode | Functions.py:1115-1151 | A source whose transform has a = 0 (pixel width 0) raises ZeroDivisionError. Otherwise the result keeps the resampled band and the CRS, with shape int(h/10) × int(w/10). |
| Georef.CoarseTransform | Functions.py:1132-1146 | The coarsened raster has pixel size 10·a, from the source transform's a, and origin (−180, 90), north up. |
| Georef.CoarsePixelAlignment | Functions.py:1132-1146 | Coarse pixel (col, row) has the corner of fine pixel (10·col, 10·row) of the global grid. |
| Georef.PixelWidthDecides | Functions.py:1115-1146 | Of the source's transform only the pixel width a reaches the result. Two transforms with the same a give the same result, and two different non-zero a give different coarse transforms. |
| Georef.CorrectedTransform | Functions.py:950-963 | The corrected transform keeps a, b, d and e, and sets the origin to (minx, maxy) of the first geometry's bounds. |
| Georef.ArrayToInMemoryRasterForClipped | Functions.py:938-980 | A plane becomes the band. Of a banded array the first band is written, and an array with no band raises IndexError. |
| Georef.ClippedOrigin | Functions.py:950-963 | Pixel (0, 0) of the clipped raster is at (minx, maxy), and every point moves by the same offset from the source transform. |

## Left out

- Raster I/O is left out: `rasterio.open`, the polygon clipping by `mask`, `MemoryFile` and `clipper`. Every clipped or resampled band is an input. `Resampling.mode` itself is a foreign algorithm, so the resampled band is an input of `Georef.ResolutionConverterMode`.
- Catalog loading and filtering with pandas are left out, and so is the `.values[0]` lookup of a crop's URL. The model receives the rasters of the crops in catalog order. A missing URL, which raises IndexError in the code, is outside the model.
- The inner merge of the two catalogs in `future_residues_all_final` is not modelled. The model receives the layers of the crops common to both.
- `convert_df_to_gdf`, `shapefile_generator` (a GADM download), the plotting functions and the Flask app in `app.py` are presentation or network code and are left out.
- Values are `real`: IEEE rounding, float32 storage of the pixel area, and NaN comparison semantics beyond "missing" are not modelled.
- The xarray Dataset and DataArray wrappers, with their coordinates and `units` attributes, become plain records.
- In the argmax, `max_values` aliases the first crop's candidate array and mutates it in place. The model keeps the maximum as a separate value, so the first crop's stored candidate is not shown as overwritten.
- `crop_data[crop]` stores the data times the leftover coefficients of the crop's last residue row, and the dataset records its `nansum`. This output does not feed the marginal result and is left out. So is the `NameError` that occurs when the first crop has no residue row.
- `remaining_area` is computed by the code but never used, so it is not modelled. `Marginal.HarvestedAreaUnused` states that the harvested area does not reach the result.
- `extract_pixel_area` returns an array with a leading band axis. The model keeps band 0, which is the one that broadcasts against `max_values`.
- `Marginal.PixelArea` takes the cosine of an angle in degrees as the parameter `cosDeg`, because floating-point trigonometry is outside the model.
- The `<U32` string type of `max_crops`, which truncates names longer than 32 characters, is not modelled. No crop name in the catalogs reaches that length.
- Element-wise operations require equal shapes, where NumPy would broadcast or xarray would align on coordinates. The callers pass rasters of one shape. For the marginal calculation this is a precondition: the crop, harvested-area and reference rasters share one shape. The `ValueError` that `np.subtract` raises on mismatched harvested-area rasters is not modelled.
- Georef.ResolutionConverterMode: reads `dataset.res[0]` as the source transform's `a`. That is what rasterio reports for a north-up transform (b = d = 0). For a rotated transform rasterio reports sqrt(a² + d²), which is not modelled.
- `Georef.InMemoryRaster` takes the width of a band with no rows as 0, where NumPy would keep the declared width.
- Each crop's raster is a single band: the optional leading band axis that the code strips, or sums over in `nansum`, is not represented.
