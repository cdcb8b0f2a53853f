/**
 * Resolution of the scale factor that converts scene lengths into 3MF
 * millimetres (unit_scale).
 */
module Units {

  /** The length units a scene may declare. */
  datatype LengthUnit =
    | Thou | Inches | Feet | Yards | Chains | Furlongs | Miles
    | Micrometers | Millimeters | Centimeters | Decimeters | Meters | Dekameters | Hectometers | Kilometers

  /** How many millimetres one unit is: the conversion table to the default 3MF unit. */
  function MillimetresPer(unit: LengthUnit): (mm: real)
    ensures mm > 0.0
  {
    match unit
    case Thou => 0.0254
    case Inches => 25.4
    case Feet => 304.8
    case Yards => 914.4
    case Chains => 20116.8
    case Furlongs => 201168.0
    case Miles => 1609344.0
    case Micrometers => 0.001
    case Millimeters => 1.0
    case Centimeters => 10.0
    case Decimeters => 100.0
    case Meters => 1000.0
    case Dekameters => 10000.0
    case Hectometers => 100000.0
    case Kilometers => 1000000.0
  }

  /**
   * unit_scale: a non-zero scene scale length is used as the factor, otherwise
   * the declared unit's millimetre factor; either is multiplied by the global
   * scale option.
   */
  function UnitScale(globalScale: real, scaleLength: real, unit: LengthUnit): (factor: real)
    ensures scaleLength == 0.0 ==> factor == globalScale * MillimetresPer(unit)
    ensures unit == Millimeters ==> factor == globalScale * (if scaleLength == 0.0 then 1.0 else scaleLength)
  {
    if scaleLength != 0.0 then scaleLength * globalScale else MillimetresPer(unit) * globalScale
  }

  /**
   * The table agrees with the definitions of the units among themselves: an
   * inch is 1000 thou, a foot 12 inches, a yard 3 feet, a chain 22 yards, a
   * furlong 10 chains, a mile 8 furlongs, an inch 25.4 mm, and each metric
   * unit is a power of ten of the metre.
   */
  lemma ConversionTableConsistent()
    ensures MillimetresPer(Inches) == 1000.0 * MillimetresPer(Thou)
    ensures MillimetresPer(Feet) == 12.0 * MillimetresPer(Inches)
    ensures MillimetresPer(Yards) == 3.0 * MillimetresPer(Feet)
    ensures MillimetresPer(Chains) == 22.0 * MillimetresPer(Yards)
    ensures MillimetresPer(Furlongs) == 10.0 * MillimetresPer(Chains)
    ensures MillimetresPer(Miles) == 8.0 * MillimetresPer(Furlongs)
    ensures MillimetresPer(Inches) == 25.4 * MillimetresPer(Millimeters)
    ensures MillimetresPer(Meters) == 1000.0 * MillimetresPer(Millimeters)
    ensures MillimetresPer(Meters) == 1000000.0 * MillimetresPer(Micrometers)
    ensures MillimetresPer(Centimeters) == 10.0 * MillimetresPer(Millimeters)
    ensures MillimetresPer(Decimeters) == 10.0 * MillimetresPer(Centimeters)
    ensures MillimetresPer(Meters) == 10.0 * MillimetresPer(Decimeters)
    ensures MillimetresPer(Dekameters) == 10.0 * MillimetresPer(Meters)
    ensures MillimetresPer(Hectometers) == 10.0 * MillimetresPer(Dekameters)
    ensures MillimetresPer(Kilometers) == 10.0 * MillimetresPer(Hectometers)
  {
  }

  /** test_unit_scale_global: with no scale length and millimetres, only the global scale remains. */
  lemma UnitScaleGlobal(globalScale: real)
    ensures UnitScale(globalScale, 0.0, Millimeters) == globalScale
  {
  }

  /** test_unit_scale_scene: with global scale 1 and millimetres, the scale length is the factor. */
  lemma UnitScaleScene(scaleLength: real)
    requires scaleLength != 0.0
    ensures UnitScale(1.0, scaleLength, Millimeters) == scaleLength
  {
  }

  /** test_unit_scale_conversion: with no scale length and global scale 1, each unit gives its table factor. */
  lemma UnitScaleConversion(unit: LengthUnit)
    ensures UnitScale(1.0, 0.0, unit) == MillimetresPer(unit)
  {
  }
}
