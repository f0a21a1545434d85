/** The fixed page geometry of the generator: an A4 page (595 x 842 points),
    text starting at (50, 790), 14 points per line, at most 92 characters per
    line. */
module Config {
  const PageWidth: nat := 595
  const PageHeight: nat := 842
  const Left: nat := 50
  const Top: nat := 790
  const LineHeight: nat := 14
  const MaxChars: nat := 92
}
