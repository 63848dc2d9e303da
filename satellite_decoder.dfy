/** `GnssStatus.toSatelliteStatus()`: turns one platform snapshot into a list of
    satellite records, one per index, in index order. The satellite utilities it
    calls (constellation and SBAS classification, carrier-frequency support) are
    given as a `Platform` value; signal values stay opaque. */
module SatelliteDecoder {
  import opened Wrappers
  import opened GnssStates

  /** A 32-bit float payload (cn0, elevation, azimuth, carrier frequency) the
      decoder copies without interpreting it. */
  datatype Float32 = Float32(bits: bv32)

  /** `model.GnssType`. */
  datatype GnssType = NAVSTAR | GLONASS | QZSS | BEIDOU | GALILEO | IRNSS | SBAS | UNKNOWN

  /** `model.SbasType`. */
  datatype SbasType = WAAS | EGNOS | GAGAN | MSAS | SDCM | SNAS | SACCSA | UNKNOWN

  /** What `android.location.GnssStatus` answers for one satellite index. */
  datatype RawSatellite = RawSatellite(
    svid: Int32,
    constellationType: Int32,
    cn0DbHz: Float32,
    hasAlmanacData: bool,
    hasEphemerisData: bool,
    usedInFix: bool,
    elevationDegrees: Float32,
    azimuthDegrees: Float32,
    hasCarrierFrequencyHz: bool,
    carrierFrequencyHz: Float32)

  /** A snapshot: `satelliteCount` is its length, index `i` answers the getters for `i`. */
  type GnssStatus = seq<RawSatellite>

  /** `SatelliteUtils.getGnssConstellationType`, `SatelliteUtils.getSbasConstellationType`
      and `SatelliteUtils.isCfSupported()`. */
  datatype Platform = Platform(
    gnssConstellationType: Int32 -> GnssType,
    sbasConstellationType: Int32 -> SbasType,
    cfSupported: bool)

  /** `model.SatelliteStatus`. The two optional fields are `None` while the
      decoder has not written them. */
  datatype SatelliteStatus = SatelliteStatus(
    svid: Int32,
    gnssType: GnssType,
    cn0DbHz: Float32,
    hasAlmanac: bool,
    hasEphemeris: bool,
    usedInFix: bool,
    elevationDegrees: Float32,
    azimuthDegrees: Float32,
    hasCarrierFrequency: bool,
    carrierFrequencyHz: Option<Float32>,
    sbasType: Option<SbasType>)

  /** The record as its constructor leaves it: no carrier frequency, no SBAS type. */
  function NewSatelliteStatus(svid: Int32, gnssType: GnssType, cn0DbHz: Float32, hasAlmanac: bool,
                              hasEphemeris: bool, usedInFix: bool, elevationDegrees: Float32,
                              azimuthDegrees: Float32): SatelliteStatus
  {
    SatelliteStatus(svid, gnssType, cn0DbHz, hasAlmanac, hasEphemeris, usedInFix,
                    elevationDegrees, azimuthDegrees, false, None, None)
  }

  /** The record for one index: every reading carried over, the carrier frequency
      present exactly when the platform supports it and the index has one, the
      SBAS provider present exactly for SBAS satellites. */
  function Decode(raw: RawSatellite, platform: Platform): (r: SatelliteStatus)
    ensures r.svid == raw.svid && r.gnssType == platform.gnssConstellationType(raw.constellationType)
    ensures r.cn0DbHz == raw.cn0DbHz && r.elevationDegrees == raw.elevationDegrees &&
            r.azimuthDegrees == raw.azimuthDegrees
    ensures r.hasAlmanac == raw.hasAlmanacData && r.hasEphemeris == raw.hasEphemerisData &&
            r.usedInFix == raw.usedInFix
    ensures r.hasCarrierFrequency <==> platform.cfSupported && raw.hasCarrierFrequencyHz
    ensures r.carrierFrequencyHz.Some? <==> r.hasCarrierFrequency
    ensures r.carrierFrequencyHz.Some? ==> r.carrierFrequencyHz.value == raw.carrierFrequencyHz
    ensures r.sbasType.Some? <==> r.gnssType == GnssType.SBAS
    ensures r.sbasType.Some? ==> r.sbasType.value == platform.sbasConstellationType(raw.svid)
  {
    var created := NewSatelliteStatus(raw.svid, platform.gnssConstellationType(raw.constellationType),
                                       raw.cn0DbHz, raw.hasAlmanacData, raw.hasEphemerisData,
                                       raw.usedInFix, raw.elevationDegrees, raw.azimuthDegrees);
    var withCarrier :=
      if platform.cfSupported && raw.hasCarrierFrequencyHz
      then created.(hasCarrierFrequency := true, carrierFrequencyHz := Some(raw.carrierFrequencyHz))
      else created;
    if withCarrier.gnssType == GnssType.SBAS
    then withCarrier.(sbasType := Some(platform.sbasConstellationType(withCarrier.svid)))
    else withCarrier
  }

  /** The loop over `0 until satelliteCount`: exactly one record per index, in
      index order, record `i` decoded from index `i`. */
  method ToSatelliteStatus(status: GnssStatus, platform: Platform) returns (satStatuses: seq<SatelliteStatus>)
    ensures |satStatuses| == |status|
    ensures forall i :: 0 <= i < |status| ==> satStatuses[i] == Decode(status[i], platform)
  {
    satStatuses := [];
    for i := 0 to |status|
      invariant |satStatuses| == i
      invariant forall k :: 0 <= k < i ==> satStatuses[k] == Decode(status[k], platform)
    {
      var raw := status[i];
      var satStatus := NewSatelliteStatus(raw.svid, platform.gnssConstellationType(raw.constellationType),
                                          raw.cn0DbHz, raw.hasAlmanacData, raw.hasEphemerisData,
                                          raw.usedInFix, raw.elevationDegrees, raw.azimuthDegrees);
      if platform.cfSupported && raw.hasCarrierFrequencyHz {
        satStatus := satStatus.(hasCarrierFrequency := true, carrierFrequencyHz := Some(raw.carrierFrequencyHz));
      }
      if satStatus.gnssType == GnssType.SBAS {
        satStatus := satStatus.(sbasType := Some(platform.sbasConstellationType(satStatus.svid)));
      }
      satStatuses := satStatuses + [satStatus];
    }
  }
}
