/** The classifiers of `load_data` (streamlit_app.py:79-151): total,
    first-match-wins keyword tests over fixed ordered lists, and exact
    membership of the university in three fixed name lists. Every classifier
    takes an optional string: `None` stands for a missing or non-string cell. */
module Classifier {
  import opened Wrappers
  import opened Text

  /** The fallback label of both categorisations. */
  const Other: string := "기타"

  /** `classify_type`'s keywords, in the order they are tried; each keyword
      is also the category it yields. */
  const TrackKeywords: seq<string> := ["교과", "종합", "논술", "정시"]

  /** `classify_type` (lines 79-90): the first of 교과, 종합, 논술, 정시
      contained in the trackLabel, else 기타. */
  function ClassifyType(trackLabel: Option<string>): (r: string)
    ensures r in TrackKeywords || r == Other
  {
    if trackLabel.None? then Other
    else if Contains(trackLabel.value, "교과") then "교과"
    else if Contains(trackLabel.value, "종합") then "종합"
    else if Contains(trackLabel.value, "논술") then "논술"
    else if Contains(trackLabel.value, "정시") then "정시"
    else Other
  }

  /** The keyword lists of `classify_major_group` (lines 98-104). */
  const MedicalKeywords: seq<string> := ["의학", "의예", "치의", "약학", "한의", "수의", "간호"]
  const EngineeringKeywords: seq<string> := ["기계", "전기", "전자", "화학", "컴퓨터", "소프트웨어", "공학"]
  const HumanitiesKeywords: seq<string> := ["국어", "영어", "경영", "경제", "행정", "교육", "심리", "사회"]
  const ArtsKeywords: seq<string> := ["체육", "스포츠", "음악", "미술", "디자인", "무용"]

  /** The department groups, in priority order, and their keyword lists. */
  const MedicalGroup: string := "의학/보건계열"
  const MajorGroups: seq<string> := [MedicalGroup, "공학/이공계열", "인문/사회계열", "예체능계열"]
  const MajorGroupKeywords: seq<seq<string>> := [MedicalKeywords, EngineeringKeywords, HumanitiesKeywords, ArtsKeywords]

  /** `classify_major_group` (lines 95-106): the first group, in the order
      medical, engineering, humanities, arts, one of whose keywords the
      department contains, else 기타. */
  function ClassifyMajorGroup(major: Option<string>): (r: string)
    ensures r in MajorGroups || r == Other
  {
    if major.None? then Other
    else if AnyContains(major.value, MedicalKeywords) then MedicalGroup
    else if AnyContains(major.value, EngineeringKeywords) then "공학/이공계열"
    else if AnyContains(major.value, HumanitiesKeywords) then "인문/사회계열"
    else if AnyContains(major.value, ArtsKeywords) then "예체능계열"
    else Other
  }

  /** `MED_KEYWORDS` and `NURSING_KEYWORDS` (lines 133-134). Unlike the
      medical group above, this list has 치과 and lacks 간호. */
  const MedKeywords: seq<string> := ["의학", "의예", "치의", "치과", "약학", "한의", "수의"]
  const NursingKeywords: seq<string> := ["간호"]

  /** `is_med_major` (lines 140-143): the department names one of the
      medical keywords. */
  predicate IsMedMajor(major: Option<string>)
    ensures IsMedMajor(major)
        <==> major.Some? && exists i :: 0 <= i < |MedKeywords| && Contains(major.value, MedKeywords[i])
  {
    major.Some? && AnyContains(major.value, MedKeywords)
  }

  /** `is_nursing_major` (lines 145-148): the department names 간호. */
  predicate IsNursingMajor(major: Option<string>)
    ensures IsNursingMajor(major) <==> major.Some? && Contains(major.value, "간호")
  {
    major.Some? && AnyContains(major.value, NursingKeywords)
  }

  /** The three university lists (lines 111-131). */
  const CapitalRegionUnis: seq<string> := [
    "서울대학교", "연세대학교", "고려대학교",
    "성균관대학교", "한양대학교", "서강대학교",
    "중앙대학교", "경희대학교", "한국외국어대학교",
    "서울시립대학교", "숭실대학교", "동국대학교",
    "건국대학교", "홍익대학교"]

  const NationalUnis: seq<string> := [
    "서울대학교", "부산대학교", "경북대학교", "전남대학교",
    "전북대학교", "충남대학교", "충북대학교", "강원대학교",
    "제주대학교", "경상국립대학교", "금오공과대학교",
    "서울과학기술대학교", "한국교통대학교"]

  const TeacherUnis: seq<string> := [
    "서울교육대학교", "부산교육대학교", "대구교육대학교",
    "광주교육대학교", "경인교육대학교", "춘천교육대학교",
    "청주교육대학교", "공주교육대학교", "전주교육대학교",
    "진주교육대학교", "제주교육대학교"]

  /** pandas' `isin(names)` on the university column: exact membership;
      a missing university is never a member. */
  predicate InGroup(university: Option<string>, names: seq<string>)
    ensures InGroup(university, names) <==> exists i :: 0 <= i < |names| && university == Some(names[i])
  {
    university.Some? && university.value in names
  }

  /** 수도권대학 (line 136): listed at lines 111-116. */
  predicate IsCapitalRegion(university: Option<string>)
    ensures IsCapitalRegion(university)
        <==> exists i :: 0 <= i < |CapitalRegionUnis| && university == Some(CapitalRegionUnis[i])
  {
    InGroup(university, CapitalRegionUnis)
  }

  /** 국립대학 (line 137): listed at lines 118-123. */
  predicate IsNational(university: Option<string>)
    ensures IsNational(university)
        <==> exists i :: 0 <= i < |NationalUnis| && university == Some(NationalUnis[i])
  {
    InGroup(university, NationalUnis)
  }

  /** 교대 (line 138): listed at lines 126-131. */
  predicate IsTeachersCollege(university: Option<string>)
    ensures IsTeachersCollege(university)
        <==> exists i :: 0 <= i < |TeacherUnis| && university == Some(TeacherUnis[i])
  {
    InGroup(university, TeacherUnis)
  }

  /** `classify_type` is first-match-wins: it answers keyword `i` exactly
      when the label contains that keyword and none tried before it. */
  lemma ClassifyTypeFirstMatch(s: string, i: nat)
    requires i < |TrackKeywords|
    ensures ClassifyType(Some(s)) == TrackKeywords[i]
        <==> Contains(s, TrackKeywords[i]) && forall j :: 0 <= j < i ==> !Contains(s, TrackKeywords[j])
  {
  }

  /** `classify_type` answers 기타 exactly for a missing label or one that
      contains none of the keywords. */
  lemma ClassifyTypeOther(trackLabel: Option<string>)
    ensures ClassifyType(trackLabel) == Other
        <==> trackLabel.None? || forall j :: 0 <= j < |TrackKeywords| ==> !Contains(trackLabel.value, TrackKeywords[j])
  {
    if trackLabel.Some? && ClassifyType(trackLabel) == Other {
      forall j | 0 <= j < |TrackKeywords| ensures !Contains(trackLabel.value, TrackKeywords[j]) {
      }
    }
  }

  /** `classify_major_group` is first-match-wins: it answers group `i`
      exactly when the department hits that group's list and no earlier
      one. */
  lemma ClassifyMajorGroupFirstMatch(s: string, i: nat)
    requires i < |MajorGroups|
    ensures ClassifyMajorGroup(Some(s)) == MajorGroups[i]
        <==> AnyContains(s, MajorGroupKeywords[i])
             && forall j :: 0 <= j < i ==> !AnyContains(s, MajorGroupKeywords[j])
  {
    MajorGroupTable();
  }

  /** The group table, entry by entry. */
  lemma MajorGroupTable()
    ensures |MajorGroups| == |MajorGroupKeywords| == 4
    ensures MajorGroups[0] == MedicalGroup && MajorGroupKeywords[0] == MedicalKeywords
    ensures MajorGroups[1] == "공학/이공계열" && MajorGroupKeywords[1] == EngineeringKeywords
    ensures MajorGroups[2] == "인문/사회계열" && MajorGroupKeywords[2] == HumanitiesKeywords
    ensures MajorGroups[3] == "예체능계열" && MajorGroupKeywords[3] == ArtsKeywords
  {
  }

  /** `classify_major_group` answers 기타 exactly for a missing department or
      one that hits no list. */
  lemma ClassifyMajorGroupOther(major: Option<string>)
    ensures ClassifyMajorGroup(major) == Other
        <==> major.None? || forall j :: 0 <= j < |MajorGroupKeywords| ==> !AnyContains(major.value, MajorGroupKeywords[j])
  {
    MajorGroupTable();
    if major.Some? && ClassifyMajorGroup(major) == Other {
      forall j | 0 <= j < |MajorGroupKeywords| ensures !AnyContains(major.value, MajorGroupKeywords[j]) {
      }
    }
  }

  /** 간호 is on the medical list, so every nursing department is in the
      medical/health group. */
  lemma NursingIsMedicalGroup(major: Option<string>)
    requires IsNursingMajor(major)
    ensures ClassifyMajorGroup(major) == MedicalGroup
  {
    var s := major.value;
    assert Contains(s, NursingKeywords[0]);
    assert MedicalKeywords[6] == "간호";
  }

  /** Conversely, a department in the medical/health group is flagged as a
      medical or a nursing department. */
  lemma MedicalGroupIsFlagged(major: Option<string>)
    requires ClassifyMajorGroup(major) == MedicalGroup
    ensures IsMedMajor(major) || IsNursingMajor(major)
  {
    var s := major.value;
    var i :| 0 <= i < |MedicalKeywords| && Contains(s, MedicalKeywords[i]);
    if i == 6 {
      assert AnyContains(s, NursingKeywords);
    } else {
      var k := if i < 3 then i else i + 1;
      assert MedKeywords[k] == MedicalKeywords[i];
    }
  }

  /** A keyword list none of whose keywords can occur in `s`, because
      keyword `i` has at position `at[i]` a character missing from `s`. */
  lemma MissesEveryKeyword(s: string, keys: seq<string>, at: seq<nat>)
    requires |at| == |keys|
    requires forall i :: 0 <= i < |keys| ==> at[i] < |keys[i]| && keys[i][at[i]] !in s
    ensures !AnyContains(s, keys)
  {
    forall i | 0 <= i < |keys| ensures !Contains(s, keys[i]) {
      NotContainsMissingChar(s, keys[i], at[i]);
    }
  }

  /** Priority decides between groups: 경영공학과 hits the humanities list
      (경영) but engineering (공학) is tried first. */
  lemma EngineeringBeforeHumanities(major: string)
    requires major == "경영공학과"
    ensures AnyContains(major, HumanitiesKeywords)
    ensures ClassifyMajorGroup(Some(major)) == "공학/이공계열"
  {
    assert OccursAt(major, "공학", 2);
    ContainsAt(major, "공학");
    assert "경영" <= major;
    forall i | 0 <= i < |MedicalKeywords| ensures !Contains(major, MedicalKeywords[i]) {
      NotContainsMissingChar(major, MedicalKeywords[i], 0);
    }
    assert EngineeringKeywords[6] == "공학";
    assert HumanitiesKeywords[2] == "경영";
  }

  /** The medical flag and the medical group disagree on dentistry: 치과 is
      on the flag's list only, so a dental-hygiene department is flagged
      medical yet falls in no group. */
  lemma DentalHygieneFlaggedButUngrouped(major: string)
    requires major == "치과위생과"
    ensures IsMedMajor(Some(major))
    ensures ClassifyMajorGroup(Some(major)) == Other
  {
    assert Contains(major, "치과") by {
      assert "치과" <= major;
    }
    DentalIsMedical(major);
    MajorGroupTable();
    DentalHygieneMisses(major, 0);
    DentalHygieneMisses(major, 1);
    DentalHygieneMisses(major, 2);
    DentalHygieneMisses(major, 3);
  }

  /** 치과위생과 hits no group list: the second character of every group
      keyword is missing from it. */
  lemma DentalHygieneMisses(major: string, g: nat)
    requires major == "치과위생과" && g < |MajorGroupKeywords|
    ensures !AnyContains(major, MajorGroupKeywords[g])
  {
    var keys := MajorGroupKeywords[g];
    MissesEveryKeyword(major, keys, seq(|keys|, _ => 1));
  }

  /** A department name containing 치과 is flagged medical. */
  lemma DentalIsMedical(major: string)
    requires Contains(major, "치과")
    ensures IsMedMajor(Some(major))
  {
    assert MedKeywords[3] == "치과";
  }

  /** A dental-technology department is flagged medical but grouped under
      engineering, through its 공학. */
  lemma DentalTechnologyFlaggedButEngineering(major: string)
    requires major == "치과기공학과"
    ensures IsMedMajor(Some(major))
    ensures ClassifyMajorGroup(Some(major)) == "공학/이공계열"
  {
    assert Contains(major, "치과") by {
      assert "치과" <= major;
    }
    DentalIsMedical(major);
    MissesEveryKeyword(major, MedicalKeywords, [0, 0, 1, 0, 0, 0, 0]);
    assert OccursAt(major, "공학", 3);
    ContainsAt(major, "공학");
    assert EngineeringKeywords[6] == "공학";
  }

  /** 서울대학교 is on both the capital-region and the national list, so
      the two flags are not exclusive. */
  lemma SeoulNationalInBoth()
    ensures IsCapitalRegion(Some("서울대학교")) && IsNational(Some("서울대학교"))
  {
  }

  /** The teachers'-college list shares no name with the other two: every
      teachers' college is named 교육대학교, and no other listed name has
      the character 육. */
  lemma TeachersCollegeExclusive(university: Option<string>)
    requires IsTeachersCollege(university)
    ensures !IsCapitalRegion(university) && !IsNational(university)
  {
    var i :| 0 <= i < |TeacherUnis| && university == Some(TeacherUnis[i]);
    TeachersCollegeSyllable(i);
    forall j | 0 <= j < |CapitalRegionUnis| ensures university != Some(CapitalRegionUnis[j]) {
      LacksTeachersSyllable(CapitalRegionUnis, j);
    }
    forall j | 0 <= j < |NationalUnis| ensures university != Some(NationalUnis[j]) {
      LacksTeachersSyllable(NationalUnis, j);
    }
  }

  /** Every teachers' college name has 육, from 교육. */
  lemma TeachersCollegeSyllable(i: nat)
    requires i < |TeacherUnis|
    ensures '육' in TeacherUnis[i]
  {
    assert TeacherUnis[i][3] == '육';
  }

  /** No capital-region or national name has 육. */
  lemma LacksTeachersSyllable(names: seq<string>, j: nat)
    requires names == CapitalRegionUnis || names == NationalUnis
    requires j < |names|
    ensures '육' !in names[j]
  {
  }

  /** Membership is exact: a short form of a listed name is not a member. */
  lemma MembershipIsExact()
    ensures !IsCapitalRegion(Some("서울대")) && !IsNational(Some("서울대"))
  {
  }
}
