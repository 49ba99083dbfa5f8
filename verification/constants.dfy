/** Constants shared by the client's components (constants.go, escape.go). */
module Constants {

  /** Port used when the address names none (constants.go). */
  const DefaultServerPort: int := 22

  /** The port at which known_hosts spells a host bare; hostkey.go calls it
      `DefaultSSHPort` without defining it, and OpenSSH's value is 22. */
  const DefaultSSHPort: int := 22

  /** Read buffer size, in bytes, of the I/O loops (constants.go). */
  const DefaultBufferSize: nat := 1024

  const ESC: char := 27 as char

  /** xterm's window-manipulation control sequence "resize to rows;cols",
      `CSI 8 ; rows ; cols t`, is recognised by this prefix and final byte. */
  const EscapeWindowChangePrefix: string := [ESC, '[', '8', ';']
  const EscapeWindowChangeSuffix: char := 't'
}
