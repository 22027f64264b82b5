/** Value types shared by the battery-query client: C integer widths and the
    six-byte Bluetooth device address (`bd_addr_t`). */
module BleTypes {

  /** `uint8_t` */
  newtype byte = x: int | 0 <= x < 0x100

  /** `uint16_t`, the width of `hci_con_handle_t` and of a battery-service cid */
  type u16 = x: int | 0 <= x < 0x1_0000

  /** `bd_addr_t`: exactly six bytes, compared byte for byte (`bd_addr_cmp`) */
  type Address = s: seq<byte> | |s| == 6 witness [0, 0, 0, 0, 0, 0]

  /** `hci_con_handle_t` */
  type ConHandle = u16

  /** The all-zero address a zero-initialised static `bd_addr_t` holds */
  const ZERO_ADDRESS: Address := [0, 0, 0, 0, 0, 0]

  /** The sentinel stored in `connection_handle` once the link is gone */
  const HCI_CON_HANDLE_INVALID: ConHandle := 0xffff

  /** The status byte of a successful operation */
  const ERROR_CODE_SUCCESS: byte := 0
}
