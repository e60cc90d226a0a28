/**
 * The converter's settings: the three input kinds and the command-line
 * switches, which the program keeps in static fields and which are passed
 * around here as one record.
 */
module Settings {

  /** How the input is read: decimal, `0b` binary or `0x` hexadecimal. */
  datatype InputType = DEC | BIN | HEX

  /**
   * The switches `--signed`, `--padding`, `--grouping` and `--prefixed`,
   * and the group sizes: three for decimal (fixed), four for binary and
   * hexadecimal unless `--bingroup=` or `--hexgroup=` set another.
   */
  datatype Config = Config(
    signed: bool,
    padding: bool,
    grouping: bool,
    prefixed: bool,
    decGroup: int,
    binGroup: int,
    hexGroup: int)

  /** The settings before any switch is read. */
  const Defaults := Config(false, false, false, false, 3, 4, 4)
}
