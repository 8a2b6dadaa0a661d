/**
 * The Donation entity: a fixed number of points sent from a donator to a
 * creator with a message, waiting for exchange until it is paid out.
 */
module DonationDomain {
  import opened Wrappers
  import opened Primitives
  import Time

  /** Days within which a payment may still be refunded. */
  const ExchangeableDayLimit: Long := 7

  /** A member is referred to by its id. */
  type MemberId = Long

  datatype DonationStatus = WaitingForExchange | Exchanged

  /** The embedded message: the name shown, the text, and whether it is secret. */
  datatype Message = Message(name: string, text: string, secret: bool)

  /**
   * The state of one donation: what a row of the donation table holds.
   * References that Java leaves null until they are set are `None`.
   */
  datatype DonationRow = DonationRow(id: Option<Long>, message: Message, point: int,
                                     donator: Option<MemberId>, creator: Option<MemberId>,
                                     status: DonationStatus,
                                     createdAt: Option<Time.LocalDateTime>)
  {
    /** The state after `toExchanged`. */
    function ToExchanged(): (r: DonationRow)
      ensures r.status == Exchanged
      ensures r.(status := status) == this
    {
      this.(status := Exchanged)
    }
  }

  lemma ToExchangedIsIdempotent(d: DonationRow)
    ensures d.ToExchanged().ToExchanged() == d.ToExchanged()
  {
  }

  /** `Objects.hash(id)`: `31 * 1 + (id == null ? 0 : Long.hashCode(id))` in `int` arithmetic. */
  function IdHashCode(id: Option<Long>): (r: int)
    ensures IsInt32(r)
    ensures id.None? ==> r == 31
  {
    match id
    case None => 31
    case Some(v) => WrapInt32(31 + LongHashCode(v))
  }

  class Donation {
    var id: Option<Long>
    var message: Message
    /** Assigned by the constructors only. */
    const point: int
    var donator: Option<MemberId>
    var creator: Option<MemberId>
    var status: DonationStatus
    /** Set by the constructors that take it, otherwise by the persistence layer. */
    var createdAt: Option<Time.LocalDateTime>

    /** The whole state of the entity as a value. */
    function Row(): DonationRow
      reads this
    {
      DonationRow(id, message, point, donator, creator, status, createdAt)
    }

    /** `Donation(message, point)`: no id yet, status waiting. */
    constructor (message: Message, point: int)
      ensures Row() == DonationRow(None, message, point, None, None, WaitingForExchange, None)
    {
      this.id := None;
      this.message := message;
      this.point := point;
      this.donator := None;
      this.creator := None;
      this.status := WaitingForExchange;
      this.createdAt := None;
    }

    /** `Donation(id, message, point)`: status waiting. */
    constructor WithId(id: Option<Long>, message: Message, point: int)
      ensures Row() == DonationRow(id, message, point, None, None, WaitingForExchange, None)
    {
      this.id := id;
      this.message := message;
      this.point := point;
      this.donator := None;
      this.creator := None;
      this.status := WaitingForExchange;
      this.createdAt := None;
    }

    /** `Donation(message, point, createdAt)`: status waiting. */
    constructor CreatedAt(message: Message, point: int, createdAt: Time.LocalDateTime)
      ensures Row() == DonationRow(None, message, point, None, None, WaitingForExchange, Some(createdAt))
    {
      this.id := None;
      this.message := message;
      this.point := point;
      this.donator := None;
      this.creator := None;
      this.status := WaitingForExchange;
      this.createdAt := Some(createdAt);
    }

    /** `Donation(message, point, status, createdAt)`: every given field as given. */
    constructor WithStatus(message: Message, point: int, status: DonationStatus,
                           createdAt: Time.LocalDateTime)
      ensures Row() == DonationRow(None, message, point, None, None, status, Some(createdAt))
    {
      this.id := None;
      this.message := message;
      this.point := point;
      this.donator := None;
      this.creator := None;
      this.status := status;
      this.createdAt := Some(createdAt);
    }

    /** `to(creator)`: sets the receiver and nothing else. */
    method To(creator: MemberId)
      modifies this`creator
      ensures Row() == old(Row()).(creator := Some(creator))
    {
      this.creator := Some(creator);
    }

    /** `from(donator)`: sets the sender and nothing else. */
    method From(donator: MemberId)
      modifies this`donator
      ensures Row() == old(Row()).(donator := Some(donator))
    {
      this.donator := Some(donator);
    }

    /** `addMessage(message)`: replaces the message and nothing else. */
    method AddMessage(message: Message)
      modifies this`message
      ensures Row() == old(Row()).(message := message)
      ensures GetName() == message.name && GetMessage() == message.text
      ensures IsSecret() == message.secret
    {
      this.message := message;
    }

    /** `toExchanged()`: the one-way flip to exchanged. */
    method ToExchanged()
      modifies this`status
      ensures Row() == old(Row()).ToExchanged()
    {
      this.status := Exchanged;
    }

    function GetName(): (r: string)
      reads this
      ensures r == Row().message.name
    {
      message.name
    }

    function GetMessage(): (r: string)
      reads this
      ensures r == Row().message.text
    {
      message.text
    }

    function IsSecret(): (r: bool)
      reads this
      ensures r == Row().message.secret
    {
      message.secret
    }

    /** `equals`: the same object, or another donation with the same id (two absent ids are equal). */
    function Equals(o: Donation?): (r: bool)
      reads this, o
      ensures r <==> o != null && id == o.id
    {
      if o == this then true
      else if o == null then false
      else id == o.id
    }

    function HashCode(): (r: int)
      reads this
      ensures IsInt32(r)
      ensures id.None? ==> r == 31
    {
      IdHashCode(id)
    }
  }

  /** `toExchanged` twice leaves the same state as once. */
  method ToExchangedTwice(d: Donation)
    modifies d`status
    ensures d.Row() == old(d.Row()).ToExchanged()
  {
    d.ToExchanged();
    d.ToExchanged();
  }

  lemma EqualsIsAnEquivalence(a: Donation, b: Donation, c: Donation)
    ensures a.Equals(a)
    ensures a.Equals(b) ==> b.Equals(a)
    ensures a.Equals(b) && b.Equals(c) ==> a.Equals(c)
  {
  }

  /** Equality ignores every field but the id. */
  lemma EqualsDependsOnlyOnId(a: Donation, b: Donation)
    ensures a.Equals(b) <==> a.id == b.id
  {
  }

  lemma EqualDonationsHaveEqualHashCodes(a: Donation, b: Donation)
    requires a.Equals(b)
    ensures a.HashCode() == b.HashCode()
  {
  }
}
