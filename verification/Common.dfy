/** Types that several modules use. */
module Common {

  type u8 = x: int | 0 <= x < 256

  datatype Option<+T> = None | Some(value: T)

  const ETH_ALEN := 6

  type Mac = m: seq<u8> | |m| == ETH_ALEN witness [0, 0, 0, 0, 0, 0]
}
