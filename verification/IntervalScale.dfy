/**
 The scale word of an interval column (dm/q.go, dm/r.go): the kind in its second
 byte, the lead scale in the high half of its first.
 */
module IntervalScale {
  function DestKind(scale: int): int { scale / 0x100 % 0x100 }

  function DestLead(scale: int): nat { scale / 0x10 % 0x10 }
}
