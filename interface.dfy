/** The write-only command/data transport the driver talks to (the `WriteOnlyDataCommand`
    interface of the `display_interface` crate). Only its observable behaviour is modelled:
    every transfer is appended to a trace, and the bus's answer to the transfer at trace
    position k is fixed in advance by the map `faults`: the error stored for k, or Ok. */
module DisplayInterface {

  /** Errors a transport can report. */
  datatype DisplayError = BusWriteError | DataFormatNotImplemented

  /** The `Result<(), DisplayError>` every transfer and every driver operation returns. */
  datatype Outcome = Ok | Err(error: DisplayError)

  /** One transfer on the bus: a command-phase or a data-phase byte string. */
  datatype Event = Cmd(bytes: seq<bv8>) | Data(bytes: seq<bv8>)

  /** The bus's answer to the transfer at trace position k. */
  function Response(faults: map<nat, DisplayError>, k: nat): Outcome {
    if k in faults then Err(faults[k]) else Ok
  }

  class Interface {
    /** Every transfer issued so far, oldest first. */
    var trace: seq<Event>
    /** The trace positions at which the bus fails, and with which error. */
    const faults: map<nat, DisplayError>

    constructor (faults: map<nat, DisplayError>)
      ensures trace == [] && this.faults == faults
    {
      trace := [];
      this.faults := faults;
    }

    /** `send_commands`: one command-phase transfer. */
    method SendCommands(bytes: seq<bv8>) returns (r: Outcome)
      modifies this
      ensures trace == old(trace) + [Cmd(bytes)]
      ensures r == Response(faults, |old(trace)|)
    {
      r := Response(faults, |trace|);
      trace := trace + [Cmd(bytes)];
    }

    /** `send_data`: one data-phase transfer. */
    method SendData(bytes: seq<bv8>) returns (r: Outcome)
      modifies this
      ensures trace == old(trace) + [Data(bytes)]
      ensures r == Response(faults, |old(trace)|)
    {
      r := Response(faults, |trace|);
      trace := trace + [Data(bytes)];
    }
  }
}
