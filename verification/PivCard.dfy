/** The card as the management-key protocols see it, and a connection that can fail. */
module PivCard {
  import opened Wrappers
  import opened Radix
  import opened FileSystem
  import Pivman

  datatype Algorithm = Tdes | Aes192

  type KeyBytes = b: bytes | |b| == 24 witness seq(24, _ => 0)

  datatype Key = Key(algorithm: Algorithm, material: KeyBytes)

  /** PIN and salt to key material: PBKDF2 in the source, any function here. */
  type Derivation = (bytes, bytes) -> KeyBytes

  /** Object values are empty when the object is absent. */
  datatype Card = Card(pin: bytes, key: Key, admin: bytes, printed: bytes, pukRetries: nat) {

    /** ADMIN DATA as parsed; a missing object is unconfigured data. */
    function Admin(): Option<Pivman.PivmanData> {
      Pivman.FromValue(admin)
    }

    /** PRINTED as parsed. */
    function Protected(): Option<Option<bytes>> {
      Pivman.ProtectedFromValue(printed)
    }
  }

  /** What a command changes on the card when it is carried out. */
  datatype Write =
    | ReplaceKey(key: Key)
    | PutPrinted(value: bytes)
    | PutAdmin(value: bytes)
    | BlockPuk
    | ChangePin(pin: bytes)

  function Apply(card: Card, w: Write): Card {
    match w
    case ReplaceKey(key) => card.(key := key)
    case PutPrinted(value) => card.(printed := value)
    case PutAdmin(value) => card.(admin := value)
    case BlockPuk => card.(pukRetries := 0)
    case ChangePin(pin) => card.(pin := pin)
  }

  function ApplyAll(card: Card, ws: seq<Write>): Card {
    if |ws| == 0 then card else Apply(ApplyAll(card, ws[..|ws| - 1]), ws[|ws| - 1])
  }

  datatype ErrorKind = SecurityStatusNotSatisfied | InvalidResponse | RefusedByCard
  datatype DriveError = Transport | Protocol(kind: ErrorKind)

  /**
   What happens to one command on the way: it completes, its response is lost,
   it never arrives, the card refuses it, or (blocking the PUK takes several
   attempts) the connection ends part of the way.
   */
  datatype Outcome = Completes | ResponseLost | NotDelivered | CardRefuses | Interrupted(retriesLeft: nat)

  type Status = Result<(), DriveError>

  /** What befalls the next command; once the script is over, every command completes. */
  function Next(outcomes: seq<Outcome>): Outcome {
    if |outcomes| == 0 then Completes else outcomes[0]
  }

  function Rest(outcomes: seq<Outcome>): seq<Outcome> {
    if |outcomes| == 0 then [] else outcomes[1..]
  }

  /** What the host learns of a command. */
  function Answer(o: Outcome, allowed: bool): Status {
    match o
    case Completes => if allowed then Success(()) else Failure(Protocol(ErrorKind.SecurityStatusNotSatisfied))
    case CardRefuses => Failure(Protocol(ErrorKind.RefusedByCard))
    case _ => Failure(DriveError.Transport)
  }

  /** The card carries the command out, whether or not the host learns of it. */
  predicate CarriedOut(o: Outcome, allowed: bool) {
    allowed && (o == Completes || o == ResponseLost)
  }

  function AfterCommand(card: Card, w: Write, o: Outcome, allowed: bool): Card {
    if CarriedOut(o, allowed) then Apply(card, w)
    else if o.Interrupted? && w == BlockPuk && o.retriesLeft < card.pukRetries then card.(pukRetries := o.retriesLeft)
    else card
  }

  /** Equal but for a PUK retry counter that may have been used up in part. */
  predicate UpToPuk(a: Card, b: Card) {
    a.(pukRetries := 0) == b.(pukRetries := 0) && a.pukRetries <= b.pukRetries
  }

  /**
   A connection, with a record of what happened on it. `moments` tells how many
   states the disk of the host had gone through when a write was attempted, so
   that writes to the card and to the disk are ordered.
   */
  class CardLink {
    var card: Card
    var outcomes: seq<Outcome>          // what befalls the coming commands; afterwards all complete
    ghost const hostDisk: Disk
    ghost var attempts: seq<Write>      // every write attempted, in order
    ghost var moments: seq<nat>         // when each was attempted
    ghost var commits: seq<Write>       // every write carried out, in order
    ghost var activeKeys: set<Key>      // every management key that was ever active

    ghost predicate Valid()
      reads this
    {
      card.key in activeKeys && |moments| == |attempts|
    }

    constructor (card: Card, outcomes: seq<Outcome>, ghost hostDisk: Disk)
      ensures Valid() && this.card == card && this.outcomes == outcomes && this.hostDisk == hostDisk
      ensures attempts == [] && moments == [] && commits == [] && activeKeys == {card.key}
    {
      this.card, this.outcomes, this.hostDisk := card, outcomes, hostDisk;
      attempts, moments, commits, activeKeys := [], [], [], {card.key};
    }

    method NextOutcome() returns (o: Outcome)
      modifies this`outcomes
      ensures o == Next(old(outcomes)) && outcomes == Rest(old(outcomes))
    {
      o := Completes;
      if |outcomes| > 0 {
        o := outcomes[0];
        outcomes := outcomes[1..];
      }
    }

    /** A command that changes nothing; it succeeds only when the card allows it. */
    method Query(allowed: bool) returns (r: Status)
      modifies this`outcomes
      ensures r == Answer(Next(old(outcomes)), allowed) && outcomes == Rest(old(outcomes))
    {
      var o := NextOutcome();
      r := Answer(o, allowed);
    }

    /** A command that carries out `w` if the card allows it; an error leaves open whether it did. */
    method Commit(w: Write, allowed: bool) returns (r: Status)
      requires Valid()
      modifies this
      ensures Valid()
      ensures var o := Next(old(outcomes));
              && outcomes == Rest(old(outcomes)) && r == Answer(o, allowed)
              && card == AfterCommand(old(card), w, o, allowed)
              && commits == (if CarriedOut(o, allowed) then old(commits) + [w] else old(commits))
              && activeKeys == (if CarriedOut(o, allowed) then old(activeKeys) + {card.key} else old(activeKeys))
      ensures attempts == old(attempts) + [w] && moments == old(moments) + [|hostDisk.states|]
      ensures UpToPuk(card, old(card)) || CarriedOut(Next(old(outcomes)), allowed)
    {
      attempts, moments := attempts + [w], moments + [|hostDisk.states|];
      var o := NextOutcome();
      r := Answer(o, allowed);
      if o == CardRefuses || o == NotDelivered {
        return;
      }
      if o.Interrupted? {
        if w == BlockPuk && o.retriesLeft < card.pukRetries {
          card := card.(pukRetries := o.retriesLeft);
        }
        return;
      }
      if allowed {
        card := Apply(card, w);
        commits := commits + [w];
        activeKeys := activeKeys + {card.key};
      }
    }
  }
}
