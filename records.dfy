/** One stop-and-frisk incident: the fields of SFRecord that the queries read
    through its getters (getDescription, getArrested, getFrisked, getGender,
    getRace, getLocation). Records are values: nothing changes them once built. */
module Records {

  datatype SFRecord = SFRecord(
    description: string,
    arrested: bool,
    frisked: bool,
    gender: string,
    race: string,
    location: string)

  predicate IsFrisked(r: SFRecord) { r.frisked }
  predicate IsArrested(r: SFRecord) { r.arrested }
  predicate IsFriskedOrArrested(r: SFRecord) { r.frisked || r.arrested }
  predicate IsFriskedAndArrested(r: SFRecord) { r.frisked && r.arrested }

  predicate IsBlack(r: SFRecord) { r.race == "B" }
  predicate IsWhite(r: SFRecord) { r.race == "W" }
  predicate IsBlackMale(r: SFRecord) { r.race == "B" && r.gender == "M" }
  predicate IsWhiteMale(r: SFRecord) { r.race == "W" && r.gender == "M" }
  predicate IsBlackFemale(r: SFRecord) { r.race == "B" && r.gender == "F" }
  predicate IsWhiteFemale(r: SFRecord) { r.race == "W" && r.gender == "F" }
}
