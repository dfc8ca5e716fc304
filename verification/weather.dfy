/** The icon shown for a weather code from the forecast service. */
module Weather {

  const Sunny: string := "\U{2600}\U{FE0F}"
  const PartlyCloudy: string := "\U{26C5}"
  const Rainy: string := "\U{1F327}\U{FE0F}"
  const Snowy: string := "\U{2744}\U{FE0F}"
  const Fair: string := "\U{1F324}\U{FE0F}"

  /** The icon for a weather code: code 0, codes up to 3 (negative ones
      included), up to 67, up to 77, and everything above. */
  function WeatherEmoji(code: int): (e: string)
    ensures e in [Sunny, PartlyCloudy, Rainy, Snowy, Fair]
  {
    if code == 0 then Sunny
    else if code <= 3 then PartlyCloudy
    else if code <= 67 then Rainy
    else if code <= 77 then Snowy
    else Fair
  }

  /** Each icon is shown for exactly one band of codes. */
  lemma WeatherBands(code: int)
    ensures WeatherEmoji(code) == Sunny <==> code == 0
    ensures WeatherEmoji(code) == PartlyCloudy <==> code != 0 && code <= 3
    ensures WeatherEmoji(code) == Rainy <==> 3 < code <= 67
    ensures WeatherEmoji(code) == Snowy <==> 67 < code <= 77
    ensures WeatherEmoji(code) == Fair <==> 77 < code
  {
  }

  /** Position of an icon in the band order (code 0 aside). */
  function Band(e: string): nat
  {
    if e == PartlyCloudy then 1
    else if e == Rainy then 2
    else if e == Snowy then 3
    else if e == Fair then 4
    else 0
  }

  /** Away from code 0, a larger code never gets an icon of an earlier band. */
  lemma WeatherMonotone(a: int, b: int)
    requires a != 0 && b != 0 && a <= b
    ensures 1 <= Band(WeatherEmoji(a)) <= Band(WeatherEmoji(b))
  {
  }
}
