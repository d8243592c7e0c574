/** The point marker drawn for one row: its style, hover label and the
    postal-code line of its pop-up. The rendering library itself is not
    modelled; a marker is the value of the arguments it is created with. */
module Markers {
  import opened Wrappers

  const Red: string := "#d00"
  const Blue: string := "#2a5bd7"

  /** Arguments of a circle marker; opacity in hundredths (0.9 is 90). */
  datatype Style = Style(radius: nat, color: string, fill: bool, fillColor: string,
                         fillOpacityPercent: nat, weight: nat)

  /** The style of a marker for a row whose cleaned code is missing (`miss`)
      or present. */
  function StyleFor(miss: bool): (s: Style)
    ensures s.radius == (if miss then 6 else 5)
    ensures s.color == s.fillColor && (s.color == Red <==> miss) && (s.color == Blue <==> !miss)
    ensures s.fillOpacityPercent == (if miss then 90 else 70)
    ensures s.fill && s.weight == 1
  {
    if miss then Style(6, Red, true, Red, 90, 1)
    else Style(5, Blue, true, Blue, 70, 1)
  }

  /** A marker: the row's table index, its (latitude, longitude), the style,
      the hover label and the postal-code line of the pop-up. */
  datatype Marker = Marker(index: int, location: (real, real), style: Style,
                           tooltip: string, popupZip: string)

  /** The hover label: "Manquant • " for a missing code, "Zip • <code>"
      otherwise. */
  function Tooltip(zc: Option<string>): string {
    match zc
    case None => "Manquant \U{2022} "
    case Some(s) => "Zip \U{2022} " + s
  }

  /** The postal-code line of the pop-up; "(manquant)" stands in for a
      missing code. */
  function PopupZipLine(zc: Option<string>): string {
    "<b>ZipCode</b> " + (match zc case None => "(manquant)" case Some(s) => s) + "<br>"
  }

  /** The marker for a row at (`lat`, `lon`) whose cleaned code is `zc`: it sits
      at the row's coordinates, and its style depends on nothing but whether
      the code is missing; the label and the pop-up line show the code when
      there is one and a "missing" text otherwise. */
  function MarkerAt(index: int, lat: real, lon: real, zc: Option<string>): (m: Marker)
    ensures m.index == index && m.location == (lat, lon)
    ensures m.style == StyleFor(zc.None?)
    ensures zc.Some? ==> |zc.value| <= |m.tooltip| && m.tooltip[|m.tooltip| - |zc.value|..] == zc.value
    ensures zc.None? ==> m.tooltip == "Manquant \U{2022} " && m.popupZip == "<b>ZipCode</b> (manquant)<br>"
    ensures zc.Some? ==> m.tooltip == "Zip \U{2022} " + zc.value
                         && m.popupZip == "<b>ZipCode</b> " + zc.value + "<br>"
  {
    Marker(index, (lat, lon), StyleFor(zc.None?), Tooltip(zc), PopupZipLine(zc))
  }

  /** The style tells the two kinds of markers apart: no marker for a missing
      code equals a marker for a present one. */
  lemma MissingAndPresentDiffer(i: int, lat: real, lon: real, zc: Option<string>,
                                i': int, lat': real, lon': real, zc': Option<string>)
    requires zc.None? && zc'.Some?
    ensures MarkerAt(i, lat, lon, zc) != MarkerAt(i', lat', lon', zc')
  {
  }
}
