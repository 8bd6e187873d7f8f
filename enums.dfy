/** The enumerations of the records. They carry no behaviour; the comments on
    `MemberStatus` state the date rules each status is meant to imply. */
module Enums {

  /** Membership status.
      Pending: asked to join, no joined, renewal or terminated date.
      ActivePaying: joined and renewal date, no terminated date.
      ActiveNonPaying, LifetimeMember: joined date, no renewal or terminated date.
      Terminated: joined and terminated date, no renewal date. */
  datatype MemberStatus = Pending | ActivePaying | ActiveNonPaying | LifetimeMember | Terminated

  datatype Chapter =
    | SanDiego | OrangeCountyLosAngeles | VenturaSantaBarbara | SantaCruzSanFrancisco
    | Oregon | Washington | Hawaii | NewEngland | WahineKaiInternational

  datatype Level = Beginner | Intermediate | Advanced | Expert

  /** The leadership position a member can hold. */
  datatype Position =
    | President | VicePresident | VicePresidentOfEvents | VicePresidentOfFinance
    | DirectorOfMarketing | DirectorOfSocialMedia | DirectorOfCommunityServices
    | SurfMamaDirector | ChapterDirector | ChapterEventCoordinator | Merchandiser

  datatype EnteredStatus = NotEntered | Entered | Accepted

  datatype Country = Canada | UnitedStates
}
