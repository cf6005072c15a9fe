/** The CMOS real-time clock's date and time (kernel/src/utils/rtc.rs): the
    raw register values are converted from BCD, from 12-hour to 24-hour form,
    to British Summer Time, and to a full year. Fields have the source's
    widths, so the arithmetic wraps as a release build's does. */
module Rtc {
  import opened Bitwise

  const CURRENT_YEAR: bv16 := 2024
  /** Register B bit: data are binary rather than BCD. */
  const BINARY_MODE: bv8 := 0x04
  /** Register B bit: hours run 0-23 rather than 1-12. */
  const TWENTY_FOUR_HOUR_MODE: bv8 := 0x02
  /** The hour register's PM flag in 12-hour mode. */
  const PM_BIT: bv8 := 0x80

  /** A two-digit BCD byte read as a number: the low nibble plus ten times the
      high nibble. */
  function BcdToBinary(v: bv8): (r: bv8)
    ensures v & 0x0F < 10 && v < 0xA0 ==> r < 100 && r as int == (v as int / 16) * 10 + v as int % 16
  {
    (v & 0x0F) + (v / 16) * 10
  }

  /** The hour's conversion: the `| (hour & 0x80)` comes after the addition,
      and `hour / 16` still holds the PM flag. An hour without the PM flag
      decodes like any other field, and the flag survives either way. */
  function BcdHourToBinary(h: bv8): (r: bv8)
    ensures h & PM_BIT == 0 ==> r == BcdToBinary(h)
    ensures r & PM_BIT == h & PM_BIT
  {
    ((h & 0x0F) + (h / 16) * 10) | (h & PM_BIT)
  }

  /** The year's conversion, on the `u16` field: a valid BCD year decodes
      to ten times its high nibble plus its low nibble. */
  function BcdYearToBinary(y: bv16): (r: bv16)
    ensures y & 0x0F < 10 && y < 0xA0 ==> r < 100 && r as int == (y as int / 16) * 10 + y as int % 16
  {
    (y & 0x0F) + (y / 16) * 10
  }

  /** A year loaded from its one register byte decodes like every other
      field, valid BCD or not: no byte's conversion wraps in eight bits. */
  lemma YearDecodesLikeByteFields(v: bv8)
    ensures BcdYearToBinary(v as bv16) == BcdToBinary(v) as bv16
  {
  }

  /** The BCD encoding of a number below 100, as the clock stores it. */
  function ToBcd(n: bv8): bv8
    requires n < 100
  {
    ((n / 10) << 4) | (n % 10)
  }

  /** Decoding undoes the clock's encoding. */
  lemma BcdRoundTrip(n: bv8)
    requires n < 100
    ensures BcdToBinary(ToBcd(n)) == n
  {
  }

  /** `convert_to_24`'s hour: only a 12-hour clock's PM hour changes, to
      `((hour & 0x7F) + 12) % 24`. */
  function To24(hour: bv8, registerB: bv8): (r: bv8)
    ensures !ContainsBit(registerB, TWENTY_FOUR_HOUR_MODE) && ContainsBit(hour, PM_BIT) ==>
              r < 24 && (r + 12) % 24 == (hour & 0x7F) % 24
    ensures ContainsBit(registerB, TWENTY_FOUR_HOUR_MODE) || !ContainsBit(hour, PM_BIT) ==> r == hour
  {
    if !ContainsBit(registerB, TWENTY_FOUR_HOUR_MODE) && ContainsBit(hour, PM_BIT)
    then ((hour & 0x7F) + 12) % 24
    else hour
  }

  /** `calculate_year`'s year: add the century, and one more when that falls
      before the current year. Two-digit years land in 2024..2123 and keep
      their last two digits. */
  function CalculatedYear(y: bv16): (r: bv16)
    ensures y < 100 ==> CURRENT_YEAR <= r < CURRENT_YEAR + 100 && r % 100 == y
  {
    var full := y + (CURRENT_YEAR / 100) * 100;
    if full < CURRENT_YEAR then full + 100 else full
  }

  /** `DateTime`: the six clock fields. */
  class DateTime {
    var second: bv8
    var minute: bv8
    var hour: bv8
    var day: bv8
    var month: bv8
    var year: bv16

    /** `new`: every field zero. */
    constructor ()
      ensures second == 0 && minute == 0 && hour == 0 && day == 0 && month == 0 && year == 0
    {
      second, minute, hour, day, month, year := 0, 0, 0, 0, 0, 0;
    }

    /** `copy_from`: every field takes the other's value. */
    method CopyFrom(other: DateTime)
      modifies this
      ensures second == old(other.second) && minute == old(other.minute) && hour == old(other.hour)
      ensures day == old(other.day) && month == old(other.month) && year == old(other.year)
    {
      var s, mi, h, d, mo, y := other.second, other.minute, other.hour, other.day, other.month, other.year;
      second, minute, hour, day, month, year := s, mi, h, d, mo, y;
    }

    /** `calculate_year`: only the year changes. */
    method CalculateYear()
      modifies this`year
      ensures year == CalculatedYear(old(year))
    {
      year := year + (CURRENT_YEAR / 100) * 100;
      if year < CURRENT_YEAR {
        year := year + 100;
      }
    }

    /** `convert_to_binary`: with register B's binary bit clear every field is
        decoded from BCD; with it set nothing changes. */
    method ConvertToBinary(registerB: bv8)
      modifies this
      ensures !ContainsBit(registerB, BINARY_MODE) ==>
                && second == BcdToBinary(old(second)) && minute == BcdToBinary(old(minute))
                && hour == BcdHourToBinary(old(hour)) && day == BcdToBinary(old(day))
                && month == BcdToBinary(old(month)) && year == BcdYearToBinary(old(year))
      ensures ContainsBit(registerB, BINARY_MODE) ==>
                && second == old(second) && minute == old(minute) && hour == old(hour)
                && day == old(day) && month == old(month) && year == old(year)
    {
      if !ContainsBit(registerB, BINARY_MODE) {
        second := (second & 0x0F) + ((second / 16) * 10);
        minute := (minute & 0x0F) + ((minute / 16) * 10);
        hour := ((hour & 0x0F) + ((hour / 16) * 10)) | (hour & 0x80);
        day := (day & 0x0F) + ((day / 16) * 10);
        month := (month & 0x0F) + ((month / 16) * 10);
        year := (year & 0x0F) + ((year / 16) * 10);
      }
    }

    /** `convert_to_bst`: one hour later, wrapping at 256 and with no carry
        into the day. */
    method ConvertToBst(registerB: bv8)
      modifies this`hour
      ensures hour == old(hour) + 1
    {
      hour := hour + 1;
    }

    /** `convert_to_24`: only the hour changes. */
    method ConvertTo24(registerB: bv8)
      modifies this`hour
      ensures hour == To24(old(hour), registerB)
    {
      if !ContainsBit(registerB, TWENTY_FOUR_HOUR_MODE) && ContainsBit(hour, 0x80) {
        hour := ((hour & 0x7F) + 12) % 24;
      }
    }

    /** The conversions `read_rtc` applies once the registers are read. */
    method Convert(registerB: bv8)
      modifies this
      ensures !ContainsBit(registerB, BINARY_MODE) ==>
                && second == BcdToBinary(old(second)) && minute == BcdToBinary(old(minute))
                && hour == To24(BcdHourToBinary(old(hour)), registerB) + 1
                && day == BcdToBinary(old(day)) && month == BcdToBinary(old(month))
                && year == CalculatedYear(BcdYearToBinary(old(year)))
      ensures ContainsBit(registerB, BINARY_MODE) ==>
                && second == old(second) && minute == old(minute)
                && hour == To24(old(hour), registerB) + 1
                && day == old(day) && month == old(month) && year == CalculatedYear(old(year))
    {
      ConvertToBinary(registerB);
      ConvertTo24(registerB);
      ConvertToBst(registerB);
      CalculateYear();
    }
  }

  /** 1 PM on a BCD 12-hour clock reads 0x81. The PM flag is counted as eight
      tens before it is masked off, so the 24-hour hour is 21, not 13. */
  lemma BcdPmHourIsEightHoursLate()
    ensures To24(BcdHourToBinary(0x81), 0) == 21
    ensures To24(0x81, BINARY_MODE) == 13
  {
  }

  /** 12 PM becomes hour 0 and 12 AM stays 12: noon and midnight swap. */
  lemma NoonAndMidnightSwap()
    ensures To24(0x8C, BINARY_MODE) == 0
    ensures To24(0x0C, BINARY_MODE) == 12
  {
  }

  /** The summer-time hour after 23 is 24. */
  lemma BstPassesMidnight()
    ensures To24(23, TWENTY_FOUR_HOUR_MODE) + 1 == 24
  {
  }
}
