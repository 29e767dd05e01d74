/**
 What every part of the kernel shares: 32-bit unsigned integers, pages, optional values.
 */
module Machine {
  type U32 = x: int | 0 <= x < 0x1_0000_0000

  const PAGE_SIZE := 4096

  function Least(a: nat, b: nat): nat { if a <= b then a else b }

  datatype Option<+T> = None | Some(value: T)
}
