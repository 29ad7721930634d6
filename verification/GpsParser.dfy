/** src/module_shims/gps-nmea.c with its globals as fields; every function refines a step of `Nmea`. */
module GpsParser {
  import opened Bytes
  import opened Nmea

  class Gps {
    const lib: CLib
    const buff: array<byte>
    var buffPos: nat
    var checksum: byte
    var onChecksum: bool
    var ignoring: bool
    var msgPos: nat
    var msgType: MsgType
    var data: GpsData
    var hold: GpsData

    /** Every byte at or past gps_buff_pos is NUL, so that gps_buff always is a C string. */
    ghost predicate Valid()
      reads this, buff
    {
      buff.Length == 30 && buffPos < 30
      && forall i :: buffPos <= i < 30 ==> buff[i] == 0
    }

    ghost function State(): Parser
      reads this, buff
      requires Valid()
    {
      Parser(buff[..buffPos], checksum, onChecksum, ignoring, msgPos, msgType, data, hold)
    }

    constructor (lib: CLib)
      ensures Valid() && fresh(buff) && this.lib == lib
      ensures State() == Parser([], 0, false, false, 0, UNSET, NO_DATA, NO_DATA)
    {
      this.lib := lib;
      buff := new byte[GPS_BUFF_LEN](_ => 0);
      buffPos, checksum, onChecksum, ignoring, msgPos := 0, 0, false, false, 0;
      msgType, data, hold := UNSET, NO_DATA, NO_DATA;
    }

    /** memset(gps_buff, 0, gps_buff_pos); gps_buff_pos = 0 */
    method ClearBuffer()
      requires Valid()
      modifies this`buffPos, buff
      ensures Valid() && State() == old(State()).(field := [])
    {
      forall i | 0 <= i < buffPos {
        buff[i] := 0;
      }
      buffPos := 0;
    }

    method Cleanup()
      requires Valid()
      modifies this`onChecksum, this`data, this`buffPos, buff
      ensures Valid() && State() == Nmea.Cleanup(old(State()))
    {
      onChecksum := false;
      ClearBuffer();
      data := NO_DATA;
    }

    method Parse() returns (published: bool)
      requires Valid()
      modifies this, buff
      ensures Valid() && (State(), published) == Nmea.Parse(lib, old(State()))
    {
      CStrStopsAtPadding(buff[..], buffPos);
      assert buff[..][..buffPos] == buff[..buffPos];
      if onChecksum {
        if checksum == Strtol16(CStr(buff[..])) {
          data := data.(checksumPassed := true);
          hold := data;
          return true;
        } else {
          Cleanup();
        }
      }
      CStrStopsAtPadding(buff[..], buffPos);
      assert buff[..][..buffPos] == buff[..buffPos];
      var text := CStr(buff[..]);
      if buffPos == 5 && msgPos == 0 {
        if text == GPRMC {
          msgType := GPRMC_MSG;
        } else if text == GPGGA {
          msgType := GPGGA_MSG;
        } else {
          ignoring := true;
          msgType := IGNORE_MSG;
        }
        msgPos := NextPos(msgPos);
      } else if msgType == GPRMC_MSG || msgType == GPGGA_MSG {
        data := Assign(lib, msgType, msgPos, text, data);
        msgPos := NextPos(msgPos);
      }
      ClearBuffer();
      return false;
    }

    method Consume(c: byte) returns (published: bool)
      requires Valid() && CanConsume(State(), c)
      modifies this, buff
      ensures Valid() && (State(), published) == Nmea.Consume(lib, old(State()), c)
    {
      if ignoring && c != DOLLAR {
        return false;
      }
      if c == COMMA || c == CR || c == LF || c == STAR {
        if c == COMMA {
          checksum := Xor(checksum, c);
        }
        published := Parse();
        if c != COMMA {
          onChecksum := true;
        }
      } else if c == DOLLAR {
        var _ := Parse();
        Cleanup();
        checksum, onChecksum, ignoring, msgType, msgPos := 0, false, false, IGNORE_MSG, 0;
        published := false;
      } else {
        buff[buffPos] := c;
        buffPos := buffPos + 1;
        assert buff[..buffPos] == old(buff[..buffPos]) + [c];
        if !onChecksum {
          checksum := Xor(checksum, c);
        }
        published := false;
      }
    }
  }
}
