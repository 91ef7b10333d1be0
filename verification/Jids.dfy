/** Identifiers: user, server, agent, device and integrator. */
module Jids {
  import Decimal

  const DEFAULT_USER_SERVER := "s.whatsapp.net"
  const HIDDEN_USER_SERVER := "lid"
  const MESSENGER_SERVER := "msgr"
  const INTEROP_SERVER := "interop"
  const HOSTED_SERVER := "hosted"
  const HOSTED_LID_SERVER := "hosted.lid"

  datatype JID = JID(user: string, server: string, agent: int, device: int, integrator: int) {
    /** Does this identifier need the agent-and-device wire form? */
    predicate IsAd() {
      || ((server == DEFAULT_USER_SERVER || server == HIDDEN_USER_SERVER) && device > 0)
      || server == HOSTED_SERVER
      || server == HOSTED_LID_SERVER
    }

    function ActualAgent(): int {
      if agent != 0 then agent
      else if server == HIDDEN_USER_SERVER then 1
      else 0
    }

    /** The short form: zero agents and devices are not written, nor is the server of a nameless one set apart. */
    function Str(): string {
      if user == "" then server
      else
        user + (if agent != 0 then "." + Decimal.Text(agent) else "")
        + (if device != 0 then ":" + Decimal.Text(device) else "") + "@" + server
    }

    /** The form hashed into the participant list, zeros included. */
    function AdString(): string {
      user + "." + Decimal.Text(ActualAgent()) + ":" + Decimal.Text(device) + "@" + server
    }
  }
}
