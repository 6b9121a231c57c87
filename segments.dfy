/** Transforms of the segment table and of longitude and latitude columns:
    `locking_depth_manager`, `zero_mesh_segment_locking_depth`,
    `order_endpoints_sphere`, the periodic longitude separation and
    plate-carree midpoint of `process_segment`, `wrap2360` and
    `latitude_to_colatitude`. The table is an array of rows; the functions
    that return a modified deep copy allocate a new array and leave their
    argument alone. Coordinates and depths are reals. */
module Segments {
  import opened Wrappers

  /** The columns of a fault segment these transforms read or write. */
  datatype Segment = Segment(
    lon1: real, lat1: real, lon2: real, lat2: real,
    x1: real, y1: real, z1: real, x2: real, y2: real, z2: real,
    lockingDepth: real, lockingDepthFlag: int,
    patchFlag: int, patchFileName: int)

  /** The command-file fields used by `locking_depth_manager`. */
  datatype Command = Command(
    lockingDepthFlag2: real, lockingDepthFlag3: real,
    lockingDepthFlag4: real, lockingDepthFlag5: real,
    lockingDepthOverrideFlag: string, lockingDepthOverrideValue: real)

  /** `locking_depth.values[locking_depth_flag == flag] = value` on one row. */
  function SetDepthWhere(s: Segment, flag: int, value: real): Segment
  {
    if s.lockingDepthFlag == flag then s.(lockingDepth := value) else s
  }

  /** One row after `locking_depth_manager`: the four flag overwrites in
      order 2, 3, 4, 5, then the override. */
  function ManagedRow(s: Segment, cmd: Command): Segment
  {
    var s2 := SetDepthWhere(s, 2, cmd.lockingDepthFlag2);
    var s3 := SetDepthWhere(s2, 3, cmd.lockingDepthFlag3);
    var s4 := SetDepthWhere(s3, 4, cmd.lockingDepthFlag4);
    var s5 := SetDepthWhere(s4, 5, cmd.lockingDepthFlag5);
    if cmd.lockingDepthOverrideFlag == "yes" then s5.(lockingDepth := cmd.lockingDepthOverrideValue) else s5
  }

  /** Only the locking depth changes. It is the override value when the
      override flag is "yes"; otherwise the command's depth for flags 2 to 5,
      and the row's own depth for every other flag. */
  lemma ManagedRowCases(s: Segment, cmd: Command)
    ensures ManagedRow(s, cmd) == s.(lockingDepth := ManagedRow(s, cmd).lockingDepth)
    ensures cmd.lockingDepthOverrideFlag == "yes" ==> ManagedRow(s, cmd).lockingDepth == cmd.lockingDepthOverrideValue
    ensures cmd.lockingDepthOverrideFlag != "yes" ==>
              ManagedRow(s, cmd).lockingDepth ==
                if s.lockingDepthFlag == 2 then cmd.lockingDepthFlag2
                else if s.lockingDepthFlag == 3 then cmd.lockingDepthFlag3
                else if s.lockingDepthFlag == 4 then cmd.lockingDepthFlag4
                else if s.lockingDepthFlag == 5 then cmd.lockingDepthFlag5
                else s.lockingDepth
  {
  }

  /** `locking_depth_manager` as written. The override line assigns to
      `locking_depth.values`, a read-only property of a pandas column, so with
      the override flag "yes" the call raises (None) instead of returning; with
      any other flag it returns the rows after the four flag overwrites. */
  function ManagedTableAsWritten(rows: seq<Segment>, cmd: Command): (r: Option<seq<Segment>>)
    ensures r.None? <==> cmd.lockingDepthOverrideFlag == "yes"
    ensures r.Some? ==> |r.value| == |rows|
    ensures r.Some? ==> forall k :: 0 <= k < |rows| ==> r.value[k] == ManagedRow(rows[k], cmd)
    ensures r.Some? ==> forall k :: 0 <= k < |rows| && !(2 <= rows[k].lockingDepthFlag <= 5) ==> r.value[k] == rows[k]
  {
    if cmd.lockingDepthOverrideFlag == "yes" then None
    else Some(seq(|rows|, k requires 0 <= k < |rows| => ManagedRow(rows[k], cmd)))
  }

  /** Where the override is asked for, the code as written raises, while the
      evidently intended manager (ManagedRow, LockingDepthManager) gives every
      row the override depth. */
  lemma OverrideRaises(rows: seq<Segment>, cmd: Command)
    requires cmd.lockingDepthOverrideFlag == "yes"
    ensures ManagedTableAsWritten(rows, cmd).None?
    ensures forall k :: 0 <= k < |rows| ==> ManagedRow(rows[k], cmd).lockingDepth == cmd.lockingDepthOverrideValue
  {
  }

  /** `segment.copy(deep=True)`. */
  method CopyTable(segment: array<Segment>) returns (r: array<Segment>)
    ensures fresh(r) && r[..] == segment[..]
  {
    r := new Segment[segment.Length](k requires 0 <= k < segment.Length reads segment => segment[k]);
  }

  /** `segment.locking_depth.values[segment.locking_depth_flag == flag] = value`. */
  method SetDepthWhereFlag(r: array<Segment>, flag: int, value: real)
    modifies r
    ensures forall k :: 0 <= k < r.Length ==> r[k] == SetDepthWhere(old(r[k]), flag, value)
  {
    for k := 0 to r.Length
      invariant forall k' :: 0 <= k' < k ==> r[k'] == SetDepthWhere(old(r[k']), flag, value)
      invariant forall k' :: k <= k' < r.Length ==> r[k'] == old(r[k'])
    {
      if r[k].lockingDepthFlag == flag {
        r[k] := r[k].(lockingDepth := value);
      }
    }
  }

  /** `locking_depth_manager(segment, command)`: a new table whose rows are
      ManagedRow of the input rows; the input is not written. */
  method LockingDepthManager(segment: array<Segment>, cmd: Command) returns (r: array<Segment>)
    ensures fresh(r) && r.Length == segment.Length
    ensures forall k :: 0 <= k < r.Length ==> r[k] == ManagedRow(segment[k], cmd)
  {
    r := CopyTable(segment);
    SetDepthWhereFlag(r, 2, cmd.lockingDepthFlag2);
    SetDepthWhereFlag(r, 3, cmd.lockingDepthFlag3);
    SetDepthWhereFlag(r, 4, cmd.lockingDepthFlag4);
    SetDepthWhereFlag(r, 5, cmd.lockingDepthFlag5);
    if cmd.lockingDepthOverrideFlag == "yes" {
      for k := 0 to r.Length
        invariant forall k' :: 0 <= k' < k ==> r[k'] == ManagedRow(segment[k'], cmd)
        invariant forall k' :: k <= k' < r.Length ==> r[k'] == ManagedRow(segment[k'], cmd).(lockingDepth := r[k'].lockingDepth)
      {
        r[k] := r[k].(lockingDepth := cmd.lockingDepthOverrideValue);
      }
    }
  }

  /** The rows `zero_mesh_segment_locking_depth` zeroes: patch_flag and
      patch_file_name nonzero and patch_file_name at most the number of meshes. */
  predicate TracesMesh(s: Segment, nMeshes: nat)
  {
    s.patchFlag != 0 && s.patchFileName != 0 && s.patchFileName <= nMeshes
  }

  /** `zero_mesh_segment_locking_depth(segment, meshes)`: a new table in which
      exactly the rows tracing a mesh have locking depth 0 and nothing else
      differs from the input. */
  method ZeroMeshSegmentLockingDepth(segment: array<Segment>, nMeshes: nat) returns (r: array<Segment>)
    ensures fresh(r) && r.Length == segment.Length
    ensures forall k :: 0 <= k < r.Length ==>
              r[k] == if TracesMesh(segment[k], nMeshes) then segment[k].(lockingDepth := 0.0) else segment[k]
  {
    r := CopyTable(segment);
    for k := 0 to r.Length
      invariant forall k' :: 0 <= k' < k ==>
                  r[k'] == if TracesMesh(segment[k'], nMeshes) then segment[k'].(lockingDepth := 0.0) else segment[k']
      invariant forall k' :: k <= k' < r.Length ==> r[k'] == segment[k']
    {
      if TracesMesh(r[k], nMeshes) {
        r[k] := r[k].(lockingDepth := 0.0);
      }
    }
  }

  /** In `process_segment` the locking depths are managed first and then
      zeroed: whatever the command says, a row tracing a mesh ends with depth
      0, and every other row keeps its managed depth. */
  lemma MeshRowsEndAtZero(s: Segment, cmd: Command, nMeshes: nat)
    ensures var m := ManagedRow(s, cmd);
            var z := if TracesMesh(m, nMeshes) then m.(lockingDepth := 0.0) else m;
            (TracesMesh(s, nMeshes) ==> z.lockingDepth == 0.0) &&
            (!TracesMesh(s, nMeshes) ==> z == m)
  {
    ManagedRowCases(s, cmd);
  }

  /** The z component of `cross(endpoint1, endpoint2)`. */
  function CrossZ(s: Segment): real
  {
    s.x1 * s.y2 - s.y1 * s.x2
  }

  /** One row after `order_endpoints_sphere`: lon/lat of the two endpoints
      are exchanged where the cross product points down; x, y, z stay. */
  function OrderedRow(s: Segment): Segment
  {
    if CrossZ(s) < 0.0 then s.(lon1 := s.lon2, lat1 := s.lat2, lon2 := s.lon1, lat2 := s.lat1) else s
  }

  /** Because the Cartesian columns are not exchanged, the test gives the
      same answer on the ordered row, so ordering twice restores the row. */
  lemma OrderedRowInvolution(s: Segment)
    ensures CrossZ(OrderedRow(s)) == CrossZ(s)
    ensures OrderedRow(OrderedRow(s)) == s
  {
  }

  /** A swapped row holds the other endpoint's longitude and latitude; the
      Cartesian columns and every other column are unchanged. */
  lemma OrderedRowSwaps(s: Segment)
    ensures var o := OrderedRow(s);
            o.x1 == s.x1 && o.y1 == s.y1 && o.z1 == s.z1 && o.x2 == s.x2 && o.y2 == s.y2 && o.z2 == s.z2 &&
            o.lockingDepth == s.lockingDepth && o.patchFlag == s.patchFlag && o.patchFileName == s.patchFileName &&
            (CrossZ(s) < 0.0 ==> o.lon1 == s.lon2 && o.lat1 == s.lat2 && o.lon2 == s.lon1 && o.lat2 == s.lat1) &&
            (CrossZ(s) >= 0.0 ==> o == s)
  {
  }

  /** `order_endpoints_sphere(segment)`: a new table of ordered rows. The
      swap reads the input table, so each row's swap is simultaneous. */
  method OrderEndpointsSphere(segment: array<Segment>) returns (r: array<Segment>)
    ensures fresh(r) && r.Length == segment.Length
    ensures forall k :: 0 <= k < r.Length ==> r[k] == OrderedRow(segment[k])
  {
    r := CopyTable(segment);
    for k := 0 to r.Length
      invariant forall k' :: 0 <= k' < k ==> r[k'] == OrderedRow(segment[k'])
      invariant forall k' :: k <= k' < r.Length ==> r[k'] == segment[k']
    {
      var s := segment[k];
      if CrossZ(s) < 0.0 {
        r[k] := r[k].(lon1 := s.lon2);
        r[k] := r[k].(lat1 := s.lat2);
        r[k] := r[k].(lon2 := s.lon1);
        r[k] := r[k].(lat2 := s.lat1);
      }
    }
  }

  /** `np.where(sep > 180, sep - 360, np.where(sep < -180, sep + 360, sep))`. */
  function PeriodicLonSeparation(sep: real): real
  {
    if sep > 180.0 then sep - 360.0 else if sep < -180.0 then sep + 360.0 else sep
  }

  /** The periodic separation differs from sep by a whole turn or not at all,
      and lies in [-180, 180] exactly when sep lies in [-540, 540]. */
  lemma PeriodicLonSeparationRange(sep: real)
    ensures var p := PeriodicLonSeparation(sep);
            (p == sep - 360.0 || p == sep || p == sep + 360.0) &&
            (-180.0 <= p <= 180.0 <==> -540.0 <= sep <= 540.0)
  {
  }

  /** Measuring from the other endpoint negates the separation. */
  lemma PeriodicLonSeparationAntisymmetric(sep: real)
    ensures PeriodicLonSeparation(-sep) == -PeriodicLonSeparation(sep)
  {
  }

  /** `mid_lon_plate_carree = lon1 + periodic_lon_separation / 2`. */
  function MidLonPlateCarree(lon1: real, lon2: real): real
  {
    lon1 + PeriodicLonSeparation(lon2 - lon1) / 2.0
  }

  /** The midpoint does not depend on which endpoint comes first, up to a
      whole turn, and for longitudes less than a half turn apart it is the
      plain average. */
  lemma MidLonPlateCarreeSymmetric(lon1: real, lon2: real)
    ensures var d := MidLonPlateCarree(lon1, lon2) - MidLonPlateCarree(lon2, lon1);
            d == -360.0 || d == 0.0 || d == 360.0
    ensures -180.0 <= lon2 - lon1 <= 180.0 ==> MidLonPlateCarree(lon1, lon2) == (lon1 + lon2) / 2.0
  {
    PeriodicLonSeparationAntisymmetric(lon2 - lon1);
    PeriodicLonSeparationRange(lon2 - lon1);
  }

  /** `lon[lon < 0] += 360` on one value. */
  function Wrap360(lon: real): real
  {
    if lon < 0.0 then lon + 360.0 else lon
  }

  /** Wrapping names the same meridian, maps [-360, 360) onto [0, 360), and
      wrapping again changes nothing for inputs of at least -360. */
  lemma Wrap360Properties(lon: real)
    ensures Wrap360(lon) == lon || Wrap360(lon) == lon + 360.0
    ensures -360.0 <= lon < 360.0 ==> 0.0 <= Wrap360(lon) < 360.0
    ensures lon >= -360.0 ==> Wrap360(Wrap360(lon)) == Wrap360(lon)
  {
  }

  /** `wrap2360(lon)`: adds 360 in place to every negative longitude. */
  method Wrap2360(lon: array<real>)
    modifies lon
    ensures forall k :: 0 <= k < lon.Length ==> lon[k] == Wrap360(old(lon[k]))
  {
    for k := 0 to lon.Length
      invariant forall k' :: 0 <= k' < k ==> lon[k'] == Wrap360(old(lon[k']))
      invariant forall k' :: k <= k' < lon.Length ==> lon[k'] == old(lon[k'])
    {
      if lon[k] < 0.0 {
        lon[k] := lon[k] + 360.0;
      }
    }
  }

  /** The scalar branch of `latitude_to_colatitude`. */
  function Colatitude(lat: real): real
  {
    if lat >= 0.0 then 90.0 - lat else -90.0 - lat
  }

  /** The scalar branch maps [-90, 90] into [-90, 90] and undoes itself on
      (-90, 90]; -90 goes to 0, which goes to 90. */
  lemma ColatitudeInvolution(lat: real)
    ensures -90.0 <= lat <= 90.0 ==> -90.0 <= Colatitude(lat) <= 90.0
    ensures -90.0 < lat <= 90.0 ==> Colatitude(Colatitude(lat)) == lat
    ensures Colatitude(Colatitude(-90.0)) == 90.0
  {
  }

  /** One entry after the two in-place passes of the array branch: the second
      pass sees what the first wrote. */
  function ColatitudeTwoPass(lat: real): real
  {
    var first := if lat >= 0.0 then 90.0 - lat else lat;
    if first < 0.0 then -90.0 - first else first
  }

  /** The two branches agree exactly at latitudes of at most 90 and at 135;
      above 90 the array branch otherwise gives `lat - 180`. */
  lemma ColatitudeBranchesAgree(lat: real)
    ensures ColatitudeTwoPass(lat) == Colatitude(lat) <==> lat <= 90.0 || lat == 135.0
    ensures lat > 90.0 ==> ColatitudeTwoPass(lat) == lat - 180.0
  {
  }

  /** `latitude_to_colatitude(lat)`: an array of one element takes the scalar
      branch and yields a new value, leaving the argument alone; any other
      array is rewritten in place by the two passes and returned. */
  method LatitudeToColatitude(lat: array<real>) returns (r: array<real>)
    modifies lat
    ensures lat.Length == 1 ==> fresh(r) && r.Length == 1 && r[0] == Colatitude(old(lat[0])) && lat[0] == old(lat[0])
    ensures lat.Length != 1 ==> r == lat && forall k :: 0 <= k < lat.Length ==> lat[k] == ColatitudeTwoPass(old(lat[k]))
  {
    if lat.Length == 1 {
      r := new real[1];
      r[0] := Colatitude(lat[0]);
      return;
    }
    for k := 0 to lat.Length
      invariant forall k' :: 0 <= k' < k ==> lat[k'] == (if old(lat[k']) >= 0.0 then 90.0 - old(lat[k']) else old(lat[k']))
      invariant forall k' :: k <= k' < lat.Length ==> lat[k'] == old(lat[k'])
    {
      if lat[k] >= 0.0 {
        lat[k] := 90.0 - lat[k];
      }
    }
    for k := 0 to lat.Length
      invariant forall k' :: 0 <= k' < k ==> lat[k'] == ColatitudeTwoPass(old(lat[k']))
      invariant forall k' :: k <= k' < lat.Length ==> lat[k'] == (if old(lat[k']) >= 0.0 then 90.0 - old(lat[k']) else old(lat[k']))
    {
      if lat[k] < 0.0 {
        lat[k] := -90.0 - lat[k];
      }
    }
    r := lat;
  }
}
